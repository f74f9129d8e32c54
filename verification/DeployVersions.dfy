/** The version strings pipeline/atx_deploy.py publishes: _bump_patch and _next_version. */
module DeployVersions {
  import opened Common
  import opened Texts

  const INITIAL_VERSION := "1.0.0"

  // ---------------------------------------------------------------- decimal numbers

  predicate IsDigit(c: char) {
    '0' <= c <= '9'
  }

  /** str.isdigit, on ASCII text. */
  predicate IsDigits(s: string) {
    s != "" && forall i | 0 <= i < |s| :: IsDigit(s[i])
  }

  /** int(s) */
  function ParseNat(s: string): nat
    requires forall i | 0 <= i < |s| :: IsDigit(s[i])
  {
    if s == "" then 0
    else
      assert IsDigit(s[|s| - 1]);
      10 * ParseNat(s[..|s| - 1]) + (s[|s| - 1] as int - '0' as int)
  }

  /** str(n) */
  function Render(n: nat): (s: string)
    ensures IsDigits(s)
  {
    var digit := '0' + (n % 10) as char;
    if n < 10 then [digit] else Render(n / 10) + [digit]
  }

  lemma {:induction false} ParseRender(n: nat)
    ensures ParseNat(Render(n)) == n
  {
    var s := Render(n);
    if n >= 10 {
      assert s[..|s| - 1] == Render(n / 10);
      ParseRender(n / 10);
    } else {
      assert s[..0] == "";
    }
  }

  // ---------------------------------------------------------------- bumping

  /** _bump_patch */
  function BumpPatch(version: string): string {
    var parts := SplitOn(SplitOn(version, '-')[0], '.');
    if |parts| != 3 || exists i | 0 <= i < 3 :: !IsDigits(parts[i]) then INITIAL_VERSION
    else JoinWith([parts[0], parts[1], Render(ParseNat(parts[2]) + 1)], '.')
  }

  /** _next_version: None when the read failed or there is no version. */
  function NextVersion(current: Option<string>): string {
    match current
    case None => INITIAL_VERSION
    case Some(v) => if v == "" then INITIAL_VERSION else BumpPatch(v)
  }

  /** The k-th version of an agent published from scratch. */
  function Patch(k: nat): string {
    "1.0." + Render(k)
  }

  lemma {:induction false} SplitAt(a: string, b: string, sep: char)
    requires sep !in a
    ensures SplitOn(a + [sep] + b, sep) == [a] + SplitOn(b, sep)
  {
    var whole := a + [sep] + b;
    if a == "" {
      assert whole[1..] == b;
    } else {
      SplitAt(a[1..], b, sep);
      assert whole[1..] == a[1..] + [sep] + b;
      assert [a[0]] + a[1..] == a;
      assert whole[0] == a[0] && a[0] in a;
    }
  }

  lemma {:induction false} SplitNowhere(a: string, sep: char)
    requires sep !in a
    ensures SplitOn(a, sep) == [a]
  {
    if a != "" {
      SplitNowhere(a[1..], sep);
      assert [a[0]] + a[1..] == a;
      assert a[0] in a;
    }
  }

  /** Joining three undotted parts and splitting them again. */
  lemma SplitThree(a: string, b: string, c: string)
    requires '.' !in a && '.' !in b && '.' !in c
    ensures SplitOn(a + "." + b + "." + c, '.') == [a, b, c]
  {
    assert a + "." + b + "." + c == a + ['.'] + (b + ['.'] + c);
    SplitAt(a, b + ['.'] + c, '.');
    SplitAt(b, c, '.');
    SplitNowhere(c, '.');
  }

  lemma JoinThree(a: string, b: string, c: string)
    ensures JoinWith([a, b, c], '.') == a + "." + b + "." + c
  {
    assert [a, b, c][1..] == [b, c] && [b, c][1..] == [c];
    assert JoinWith([c], '.') == c;
    assert JoinWith([b, c], '.') == b + ['.'] + c;
  }

  /** major.minor.patch in digits, and nothing or a dash and more after it. */
  predicate IsNumeric(version: string, major: string, minor: string, patch: string, suffix: string) {
    && version == major + "." + minor + "." + patch + suffix
    && IsDigits(major) && IsDigits(minor) && IsDigits(patch)
    && (suffix == "" || suffix[0] == '-')
  }

  lemma NumericParts(version: string, major: string, minor: string, patch: string, suffix: string)
    requires IsNumeric(version, major, minor, patch, suffix)
    ensures SplitOn(SplitOn(version, '-')[0], '.') == [major, minor, patch]
  {
    var core := major + "." + minor + "." + patch;
    assert '-' !in core;
    if suffix == "" {
      assert core + suffix == core;
      SplitNowhere(core, '-');
    } else {
      assert core + suffix == core + ['-'] + suffix[1..];
      SplitAt(core, suffix[1..], '-');
    }
    SplitThree(major, minor, patch);
  }

  lemma {:induction false} SplitHead(s: string, sep: char)
    ensures var head := SplitOn(s, sep)[0]; head <= s && (|head| < |s| ==> s[|head|] == sep)
  {
    if s != "" {
      SplitHead(s[1..], sep);
    }
  }

  lemma {:induction false} JoinSplitOn(s: string, sep: char)
    ensures JoinWith(SplitOn(s, sep), sep) == s
  {
    if s != "" {
      JoinSplitOn(s[1..], sep);
      var rest := SplitOn(s[1..], sep);
      if s[0] == sep {
        assert ([""] + rest)[1..] == rest;
        assert s == "" + [sep] + s[1..];
      } else {
        var parts := [[s[0]] + rest[0]] + rest[1..];
        assert parts[1..] == rest[1..];
        assert s == [s[0]] + s[1..];
      }
    }
  }

  lemma NumericBumped(version: string, major: string, minor: string, patch: string, suffix: string)
    requires IsNumeric(version, major, minor, patch, suffix)
    ensures BumpPatch(version) == major + "." + minor + "." + Render(ParseNat(patch) + 1)
  {
    NumericParts(version, major, minor, patch, suffix);
    hide IsNumeric, SplitOn, JoinWith;
    JoinThree(major, minor, Render(ParseNat(patch) + 1));
  }

  lemma ThreeParts(version: string)
    returns (major: string, minor: string, patch: string, suffix: string)
    requires var parts := SplitOn(SplitOn(version, '-')[0], '.');
             |parts| == 3 && forall i | 0 <= i < 3 :: IsDigits(parts[i])
    ensures IsNumeric(version, major, minor, patch, suffix)
  {
    var core := SplitOn(version, '-')[0];
    var parts := SplitOn(core, '.');
    SplitHead(version, '-');
    JoinSplitOn(core, '.');
    hide SplitOn, JoinWith, IsDigits;
    assert parts == [parts[0], parts[1], parts[2]];
    JoinThree(parts[0], parts[1], parts[2]);
    major, minor, patch, suffix := parts[0], parts[1], parts[2], version[|core|..];
    assert version == core + suffix;
  }

  /** A numeric version's patch goes up by one and any suffix goes; anything else starts over. */
  lemma BumpExact(version: string)
    ensures forall major, minor, patch, suffix | IsNumeric(version, major, minor, patch, suffix) ::
              BumpPatch(version) == major + "." + minor + "." + Render(ParseNat(patch) + 1)
    ensures BumpPatch(version) == INITIAL_VERSION
            || exists major, minor, patch, suffix :: IsNumeric(version, major, minor, patch, suffix)
  {
    forall major, minor, patch, suffix | IsNumeric(version, major, minor, patch, suffix)
      ensures BumpPatch(version) == major + "." + minor + "." + Render(ParseNat(patch) + 1)
    {
      NumericBumped(version, major, minor, patch, suffix);
    }
    hide IsNumeric, SplitOn, JoinWith, IsDigits, Render, ParseNat;
    var parts := SplitOn(SplitOn(version, '-')[0], '.');
    if |parts| == 3 && forall i | 0 <= i < 3 :: IsDigits(parts[i]) {
      var major, minor, patch, suffix := ThreeParts(version);
    }
  }

  /** Said of a rendered patch number. */
  lemma BumpNumeric(major: string, minor: string, patch: nat, suffix: string)
    requires IsDigits(major) && IsDigits(minor)
    requires suffix == "" || suffix[0] == '-'
    ensures BumpPatch(major + "." + minor + "." + Render(patch) + suffix)
         == major + "." + minor + "." + Render(patch + 1)
  {
    var version := major + "." + minor + "." + Render(patch) + suffix;
    assert IsNumeric(version, major, minor, Render(patch), suffix);
    BumpExact(version);
    ParseRender(patch);
  }

  lemma BumpOfPatch(k: nat)
    ensures BumpPatch(Patch(k)) == Patch(k + 1) && Patch(k) != ""
    ensures Patch(0) == INITIAL_VERSION
  {
    assert IsDigits("1") && IsDigits("0");
    BumpNumeric("1", "0", k, "");
    assert "1" + "." + "0" + "." + Render(k) + "" == Patch(k);
    assert "1" + "." + "0" + "." + Render(k + 1) == Patch(k + 1);
    assert Render(0) == "0";
  }

  lemma PatchInjective(j: nat, k: nat)
    ensures Patch(j) == Patch(k) <==> j == k
  {
    ParseRender(j);
    ParseRender(k);
    assert Patch(j)[4..] == Render(j) && Patch(k)[4..] == Render(k);
  }
}
