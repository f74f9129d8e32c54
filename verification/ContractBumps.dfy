/** The version algebra of scripts/contract_bumps.py: pending bumps and the numbers they get. */
module ContractBumps {
  import opened Common
  import opened SchemaDiff

  /** A MAJOR.MINOR contract version. */
  datatype Version = Version(major: nat, minor: nat)

  /** _version_tuple(v) < _version_tuple(w) */
  predicate Below(v: Version, w: Version) {
    v.major < w.major || (v.major == w.major && v.minor < w.minor)
  }

  predicate NotAbove(v: Version, w: Version) {
    v == w || Below(v, w)
  }

  /** One pending file: the contract and the kind it declares. */
  datatype PendingBump = PendingBump(contract: string, kind: Bump)

  /** The kinds a pending file may declare. */
  predicate Declarable(kind: Bump) {
    kind != NoBump
  }

  function Rank(kind: Bump): nat {
    match kind
    case NoBump => 0
    case MinorBump => 1
    case MajorBump => 2
  }

  predicate KindCovers(declared: Bump, required: Bump) {
    Rank(declared) >= Rank(required)
  }

  /** bump_version: no number for a kind that is not declarable. */
  function BumpVersion(version: Version, kind: Bump): Option<Version> {
    match kind
    case MinorBump => Some(Version(version.major, version.minor + 1))
    case MajorBump => Some(Version(version.major + 1, 0))
    case NoBump => None
  }

  /** The number a kind gets is the least one above the version, and for MAJOR the least with
      a higher MAJOR. */
  lemma BumpIsNext(version: Version, kind: Bump)
    requires Declarable(kind)
    ensures BumpVersion(version, kind).Some?
    ensures var next := BumpVersion(version, kind).value;
            && Below(version, next)
            && (kind == MajorBump <==> next.major > version.major)
            && forall v | Below(version, v) && (kind == MajorBump ==> v.major > version.major) :: NotAbove(next, v)
  {
  }

  /** strongest: the largest of the kinds, none for an empty list. */
  method Strongest(kinds: seq<Bump>) returns (best: Bump)
    ensures best == StrongestOf(kinds)
  {
    best := NoBump;
    for i := 0 to |kinds|
      invariant best == StrongestOf(kinds[..i])
    {
      assert kinds[..i + 1][..i] == kinds[..i];
      if Rank(kinds[i]) > Rank(best) {
        best := kinds[i];
      }
    }
    assert kinds[..|kinds|] == kinds;
  }

  function StrongestOf(kinds: seq<Bump>): Bump {
    if kinds == [] then NoBump
    else
      var rest := StrongestOf(kinds[..|kinds| - 1]);
      if Rank(kinds[|kinds| - 1]) > Rank(rest) then kinds[|kinds| - 1] else rest
  }

  /** What the strongest kind covers is what some declared kind covers. */
  lemma {:induction false} StrongestCovers(kinds: seq<Bump>, required: Bump)
    requires required != NoBump
    ensures KindCovers(StrongestOf(kinds), required) <==> exists k | k in kinds :: KindCovers(k, required)
  {
    if kinds != [] {
      var front, last := kinds[..|kinds| - 1], kinds[|kinds| - 1];
      StrongestCovers(front, required);
      assert forall k :: k in kinds <==> k in front || k == last;
    }
  }

  lemma {:induction false} StrongestIsDeclarable(kinds: seq<Bump>)
    requires kinds != [] && forall k | k in kinds :: Declarable(k)
    ensures Declarable(StrongestOf(kinds))
  {
    assert kinds[|kinds| - 1] in kinds;
  }

  /** The kinds a list of pending files declares for one contract, in order. */
  function KindsOf(bumps: seq<PendingBump>, contract: string): seq<Bump> {
    if bumps == [] then []
    else
      var rest := KindsOf(bumps[..|bumps| - 1], contract);
      if bumps[|bumps| - 1].contract == contract then rest + [bumps[|bumps| - 1].kind] else rest
  }

  /** pending_kinds: {contract: strongest declared kind}. */
  method PendingKinds(bumps: seq<PendingBump>) returns (kinds: map<string, Bump>)
    ensures forall c :: c in kinds <==> KindsOf(bumps, c) != []
    ensures forall c | c in kinds :: kinds[c] == StrongestOf(KindsOf(bumps, c))
    ensures forall c :: c in kinds <==> exists b | b in bumps :: b.contract == c
    ensures forall b | b in bumps :: Rank(kinds[b.contract]) >= Rank(b.kind)
    ensures (forall b | b in bumps :: Declarable(b.kind)) ==>
              forall c | c in kinds :: PendingBump(c, kinds[c]) in bumps
  {
    var grouped: map<string, seq<Bump>> := map[];
    for i := 0 to |bumps|
      invariant forall c :: c in grouped <==> KindsOf(bumps[..i], c) != []
      invariant forall c | c in grouped :: grouped[c] == KindsOf(bumps[..i], c)
    {
      assert bumps[..i + 1][..i] == bumps[..i];
      var b := bumps[i];
      var before := if b.contract in grouped then grouped[b.contract] else [];
      grouped := grouped[b.contract := before + [b.kind]];
    }
    assert bumps[..|bumps|] == bumps;
    kinds := map[];
    var todo := grouped.Keys;
    while todo != {}
      invariant todo <= grouped.Keys && kinds.Keys == grouped.Keys - todo
      invariant forall c | c in kinds :: kinds[c] == StrongestOf(grouped[c])
      decreases todo
    {
      var c :| c in todo;
      var best := Strongest(grouped[c]);
      kinds := kinds[c := best];
      todo := todo - {c};
    }
    assert forall c :: c in kinds <==> c in kinds.Keys;
    PendingRead(bumps, kinds);
  }

  /** The kinds declared for a contract are those of its pending files. */
  lemma {:induction false} KindsDeclared(bumps: seq<PendingBump>, contract: string, kind: Bump)
    ensures kind in KindsOf(bumps, contract) <==> PendingBump(contract, kind) in bumps
  {
    if bumps != [] {
      var front, last := bumps[..|bumps| - 1], bumps[|bumps| - 1];
      KindsDeclared(front, contract, kind);
      assert forall b :: b in bumps <==> b in front || b == last;
    }
  }

  lemma {:induction false} StrongestIsLargest(kinds: seq<Bump>)
    ensures forall k | k in kinds :: Rank(StrongestOf(kinds)) >= Rank(k)
    ensures StrongestOf(kinds) in kinds || StrongestOf(kinds) == NoBump
  {
    if kinds != [] {
      var front, last := kinds[..|kinds| - 1], kinds[|kinds| - 1];
      StrongestIsLargest(front);
      assert forall k :: k in kinds <==> k in front || k == last;
    }
  }

  lemma PendingRead(bumps: seq<PendingBump>, kinds: map<string, Bump>)
    requires forall c :: c in kinds <==> KindsOf(bumps, c) != []
    requires forall c | c in kinds :: kinds[c] == StrongestOf(KindsOf(bumps, c))
    ensures forall c :: c in kinds <==> exists b | b in bumps :: b.contract == c
    ensures forall b | b in bumps :: Rank(kinds[b.contract]) >= Rank(b.kind)
    ensures (forall b | b in bumps :: Declarable(b.kind)) ==>
              forall c | c in kinds :: PendingBump(c, kinds[c]) in bumps
  {
    hide KindsOf, StrongestOf;
    forall c | c in kinds
      ensures exists b | b in bumps :: b.contract == c
      ensures (forall b | b in bumps :: Declarable(b.kind)) ==> PendingBump(c, kinds[c]) in bumps
    {
      var k := KindsOf(bumps, c)[0];
      KindsDeclared(bumps, c, k);
      assert PendingBump(c, k) in bumps;
      StrongestIsLargest(KindsOf(bumps, c));
      KindsDeclared(bumps, c, StrongestOf(KindsOf(bumps, c)));
    }
    forall b | b in bumps
      ensures b.contract in kinds && Rank(kinds[b.contract]) >= Rank(b.kind)
    {
      assert b == PendingBump(b.contract, b.kind);
      KindsDeclared(bumps, b.contract, b.kind);
      StrongestIsLargest(KindsOf(bumps, b.contract));
    }
  }
}
