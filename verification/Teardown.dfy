/**
 cmd_destroy of pipeline/atx_deploy.py for one agent: deprecate, deregister, wait for the
 asynchronous deregistration, and only then delete the runtime. The service answers
 truthfully: not-found and validation errors mean there is no entry, and a failing lookup
 means the entry is gone.
 */
module Teardown {

  /** The registry entry. Deregistration is accepted first and finishes later. */
  datatype Entry = Registered | Deregistering | Gone

  datatype ErrorKind = NoSuchEntry | ActiveInstances | OtherError

  datatype Answer = Accepted | Refused(error: ErrorKind)

  /** Whether the deregistration was asked for, and what the registry said. */
  datatype Call = NotMade | Made(answer: Answer)

  /** What one destroy of an agent came to. */
  datatype Outcome = Raised | TimedOut | RuntimeDeleted | NoRuntime

  /** What time can do to an entry: end a pending deregistration, while the runtime exists. */
  predicate Drifts(before: Entry, after: Entry, runtime: bool) {
    after == before || (before == Deregistering && after == Gone && runtime)
  }

  /** An agent as the service holds it. The runtime is what finishes a deregistration: an
      entry whose runtime is deleted first stays forever. */
  class Agent {
    var entry: Entry
    var runtime: bool
    var deprecated: bool

    constructor (entry: Entry, runtime: bool)
      ensures this.entry == entry && this.runtime == runtime
    {
      this.entry := entry;
      this.runtime := runtime;
      deprecated := false;
    }

    /** Time passes: a pending deregistration may finish, while the runtime exists. */
    method Drift()
      modifies `entry
      ensures Drifts(old(entry), entry, runtime)
    {
    }

    /** Time passes and, if it can, the pending deregistration does finish. */
    method DriftToTheEnd()
      modifies `entry
      ensures entry == if old(entry) == Deregistering && runtime then Gone else old(entry)
    {
      if entry == Deregistering && runtime {
        entry := Gone;
      }
    }

    /** update_agent(deprecated=True); fault: the call fails for a reason of its own. */
    method Update(fault: bool) returns (answer: Answer)
      modifies `deprecated
      ensures fault ==> answer == Refused(OtherError) && deprecated == old(deprecated)
      ensures !fault ==> answer == (if entry.Gone? then Refused(NoSuchEntry) else Accepted)
                         && deprecated == (old(deprecated) || !entry.Gone?)
    {
      if fault {
        answer := Refused(OtherError);
      } else if entry.Gone? {
        answer := Refused(NoSuchEntry);
      } else {
        deprecated := true;
        answer := Accepted;
      }
    }

    /** deregister_agent(force); busy: the agent has active instances. */
    method Deregister(force: bool, busy: bool, fault: bool) returns (answer: Answer)
      modifies `entry
      ensures answer == DeregisterAnswer(old(entry), force, busy, fault)
      ensures entry == if answer.Accepted? then Deregistering else old(entry)
    {
      answer := DeregisterAnswer(entry, force, busy, fault);
      if answer.Accepted? {
        entry := Deregistering;
      }
    }

    /** delete_agent_runtime, when _find_runtime finds one. */
    method DeleteRuntime() returns (found: bool)
      modifies `runtime
      ensures found == old(runtime) && !runtime
    {
      found := runtime;
      runtime := false;
    }
  }

  function DeregisterAnswer(entry: Entry, force: bool, busy: bool, fault: bool): Answer {
    if fault then Refused(OtherError)
    else if entry.Gone? then Refused(NoSuchEntry)
    else if busy && !force then Refused(ActiveInstances)
    else Accepted
  }

  /** _wait_deregistered: look the entry up until it is gone or the clock runs out; polls is
      how many lookups the clock allows. */
  method WaitDeregistered(agent: Agent, polls: nat) returns (gone: bool)
    modifies agent`entry
    ensures gone == agent.entry.Gone?
    ensures Drifts(old(agent.entry), agent.entry, agent.runtime)
  {
    var left := polls;
    while true
      invariant Drifts(old(agent.entry), agent.entry, agent.runtime)
      decreases left
    {
      if agent.entry.Gone? {
        return true;
      }
      if left == 0 {
        return false;
      }
      left := left - 1;
      agent.Drift();
    }
  }

  /** One agent's turn in cmd_destroy. A pending deregistration may finish before any call. */
  method Destroy(agent: Agent, force: bool, busy: bool, updateFault: bool, deregisterFault: bool, polls: nat)
    returns (outcome: Outcome, call: Call)
    modifies agent
    ensures call.NotMade? <==> updateFault
    ensures call.Made? ==>
              exists seen | Drifts(old(agent.entry), seen, old(agent.runtime)) ::
                call.answer == DeregisterAnswer(seen, force, busy, deregisterFault)
    // under an entry that remains, the runtime is deleted only after the active-instances answer
    ensures old(agent.runtime) && !agent.entry.Gone?
            ==> (!agent.runtime <==> call == Made(Refused(ActiveInstances)))
    // a wait that ran out leaves the runtime, and the entry hidden
    ensures outcome.TimedOut? <==> call == Made(Accepted) && !agent.entry.Gone?
    ensures outcome.TimedOut? ==> agent.runtime == old(agent.runtime) && agent.deprecated
                                  && agent.entry == Deregistering
    ensures outcome.Raised? <==> updateFault || deregisterFault
    ensures outcome.Raised? ==> agent.runtime == old(agent.runtime)
    ensures outcome.RuntimeDeleted? || outcome.NoRuntime? ==> !agent.runtime
    ensures outcome.RuntimeDeleted? ==> old(agent.runtime)
    ensures outcome.NoRuntime? ==> !old(agent.runtime)
    ensures !outcome.Raised? && (!agent.entry.Gone? || old(agent.entry).Registered?) ==> agent.deprecated
    // only an accepted deregistration changes an entry that was not already on its way out,
    // and only the runtime finishes one
    ensures call != Made(Accepted) ==> Drifts(old(agent.entry), agent.entry, old(agent.runtime))
    ensures agent.entry.Gone? ==> old(agent.entry).Gone? || old(agent.runtime)
  {
    agent.Drift();
    var updated := agent.Update(updateFault);
    if updated.Refused? && !updated.error.NoSuchEntry? {
      return Raised, NotMade;
    }
    agent.Drift();
    ghost var seen := agent.entry;
    assert Drifts(old(agent.entry), seen, old(agent.runtime));
    var answer := agent.Deregister(force, busy, deregisterFault);
    call := Made(answer);
    var deregistering := false;
    if answer.Accepted? {
      deregistering := true;
    } else if answer.error.ActiveInstances? && !force {
      // warned; nothing stops the runtime from being deleted below
    } else if !answer.error.NoSuchEntry? {
      return Raised, call;
    }
    if deregistering {
      var gone := WaitDeregistered(agent, polls);
      if !gone {
        return TimedOut, call;
      }
    }
    agent.Drift();
    var found := agent.DeleteRuntime();
    outcome := if found then RuntimeDeleted else NoRuntime;
  }

  /** Teardown converges: after a wait that ran out, once the deregistration has finished, a
      second destroy leaves neither entry nor runtime. */
  method DestroyAgain(agent: Agent, force: bool, busy: bool, polls: nat, morePolls: nat)
    returns (first: Outcome, second: Outcome)
    requires !agent.entry.Gone? && agent.runtime && (force || !busy)
    modifies agent
    ensures first.TimedOut? || first.RuntimeDeleted?
    ensures agent.entry.Gone? && !agent.runtime
  {
    var call;
    first, call := Destroy(agent, force, busy, false, false, polls);
    agent.DriftToTheEnd();
    second, call := Destroy(agent, force, busy, false, false, morePolls);
  }

  /** The fall-through, and why it matters: without --force on a busy agent the runtime is
      deleted under a registered entry, and a later forced destroy can never finish. */
  method BusyWithoutForce(agent: Agent, polls: nat) returns (later: Outcome)
    requires agent.entry == Registered && agent.runtime
    modifies agent
    ensures later.TimedOut? && agent.entry == Deregistering && !agent.runtime
  {
    var _, _ := Destroy(agent, false, true, false, false, polls);
    var call;
    later, call := Destroy(agent, true, true, false, false, polls);
    agent.DriftToTheEnd();
  }
}
