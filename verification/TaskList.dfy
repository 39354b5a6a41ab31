// The accept loop of the file server (lesson4/mt_server/main.cpp): one task per
// client, and after each accept a pass that reports and drops finished tasks.

module TaskList {

  // A task ends with a result or with an exception, which `get` throws again.
  datatype Ending = Returned(served: bool) | Raised

  datatype Task = Task(id: nat, ending: Ending)

  // One turn of the loop: the new client's job, and the ids of the jobs
  // found finished when the pass asks.
  datatype Round = Round(client: Task, finished: set<nat>)

  function Unfinished(tasks: seq<Task>, finished: set<nat>): seq<Task> {
    if tasks == [] then []
    else
      var last := tasks[|tasks| - 1];
      Unfinished(tasks[..|tasks| - 1], finished) + if last.id in finished then [] else [last]
  }

  function Finished(tasks: seq<Task>, finished: set<nat>): seq<Task> {
    if tasks == [] then []
    else
      var last := tasks[|tasks| - 1];
      Finished(tasks[..|tasks| - 1], finished) + if last.id in finished then [last] else []
  }

  predicate Throws(tasks: seq<Task>, finished: set<nat>) {
    exists i :: 0 <= i < |tasks| && tasks[i].id in finished && tasks[i].ending == Raised
  }

  lemma {:induction false} Partition(tasks: seq<Task>, finished: set<nat>)
    ensures multiset(Unfinished(tasks, finished)) + multiset(Finished(tasks, finished)) == multiset(tasks)
  {
    if tasks != [] {
      Partition(tasks[..|tasks| - 1], finished);
      assert tasks == tasks[..|tasks| - 1] + [tasks[|tasks| - 1]];
    }
  }

  lemma {:induction false} StayUnfinished(tasks: seq<Task>, finished: set<nat>)
    ensures forall t :: t in Unfinished(tasks, finished) ==> t.id !in finished
  {
    if tasks != [] {
      StayUnfinished(tasks[..|tasks| - 1], finished);
    }
  }

  // Without an exception, nothing that is reported had raised.
  lemma {:induction false} NoneRaised(tasks: seq<Task>, finished: set<nat>)
    requires !Throws(tasks, finished)
    ensures forall t :: t in Finished(tasks, finished) ==> t.ending != Raised
  {
    if tasks != [] {
      assert tasks[|tasks| - 1].id in finished ==> tasks[|tasks| - 1].ending != Raised;
      NoneRaised(tasks[..|tasks| - 1], finished);
    }
  }

  class Server {
    var pending: seq<Task>
    var reported: seq<Task>
    var stopped: bool
    ghost var accepted: seq<Task>

    // Every client accepted so far is pending or reported, once, and nothing that
    // raised is reported.
    ghost predicate Accounted()
      reads this
    {
      && multiset(pending) + multiset(reported) == multiset(accepted)
      && forall t :: t in reported ==> t.ending != Raised
    }

    constructor ()
      ensures Accounted() && pending == [] && reported == [] && accepted == [] && !stopped
    {
      pending, reported, stopped, accepted := [], [], false, [];
    }

    // The pass: exactly the finished tasks are reported, in order, and exactly the
    // others stay, in order; unless a finished task raised, which ends the server.
    method Reap(finished: set<nat>)
      requires !stopped
      modifies `pending, `reported, `stopped
      ensures stopped <==> Throws(old(pending), finished)
      ensures forall t :: t in reported ==> t in old(reported) || t.ending != Raised
      ensures !stopped ==> pending == Unfinished(old(pending), finished)
                           && reported == old(reported) + Finished(old(pending), finished)
      ensures multiset(pending) + multiset(reported) == old(multiset(pending) + multiset(reported))
    {
      var task := 0;
      ghost var seen, was, before := 0, pending, reported;
      Untouched(was, finished, before);
      while task < |pending|
        invariant !stopped && 0 <= task <= |pending|
        invariant Passed(was, finished, before, seen, pending, task, reported)
        decreases |pending| - task
      {
        NextIs(was, finished, before, seen, pending, task, reported);
        if pending[task].id in finished {
          var ready := pending[task];
          if ready.ending == Raised {
            stopped := true;
            Conserved(was, finished, before, seen, pending, task, reported);
            NoneRaised(was[..seen], finished);
            assert was[seen].id in finished && was[seen].ending == Raised;
            return;
          }
          DropOne(was, finished, before, seen, pending, task, reported);
          reported := reported + [ready];
          pending := pending[..task] + pending[task + 1..];
        } else {
          KeepOne(was, finished, before, seen, pending, task, reported);
          task := task + 1;
        }
        seen := seen + 1;
      }
      AllSeen(was, finished, before, seen, pending, task, reported);
      NoneRaised(was, finished);
    }

    // One turn of the accept loop.
    method Turn(round: Round)
      requires Accounted() && !stopped
      modifies this
      ensures Accounted() && accepted == old(accepted) + [round.client]
      ensures !stopped ==> forall t :: t in pending ==> t.id !in round.finished
      ensures stopped <==> RaisedAmong(old(pending) + [round.client], round.finished)
      ensures stopped ==> RaisedAmong(accepted, round.finished)
    {
      pending := pending + [round.client];
      accepted := accepted + [round.client];
      assert multiset(accepted) == multiset(old(accepted)) + multiset{round.client};
      assert Accounted();
      StayUnfinished(pending, round.finished);
      ghost var asked := pending;
      Reap(round.finished);
      if stopped {
        ghost var i :| 0 <= i < |asked| && asked[i].id in round.finished && asked[i].ending == Raised;
        assert asked[i] in multiset(asked) && multiset(asked) <= multiset(accepted);
        assert asked[i] in accepted;
      }
    }

    // Any number of turns: nobody is lost or reported twice, every task still
    // pending was unfinished at the last pass, and the server is still running
    // unless a task it asked for had raised.
    method Serve(rounds: seq<Round>) returns (served: nat)
      requires Accounted() && !stopped
      modifies this
      ensures Accounted() && served <= |rounds|
      ensures accepted == old(accepted) + Clients(rounds[..served])
      ensures stopped || served == |rounds|
      ensures !stopped && served > 0 ==> forall t :: t in pending ==> t.id !in rounds[served - 1].finished
      ensures stopped ==> served > 0 && RaisedAmong(accepted, rounds[served - 1].finished)
    {
      served := 0;
      while served < |rounds| && !stopped
        invariant served <= |rounds| && Accounted()
        invariant accepted == old(accepted) + Clients(rounds[..served])
        invariant !stopped && served > 0 ==> forall t :: t in pending ==> t.id !in rounds[served - 1].finished
        invariant stopped ==> served > 0 && RaisedAmong(accepted, rounds[served - 1].finished)
        decreases |rounds| - served
      {
        Turn(rounds[served]);
        served := served + 1;
        assert rounds[..served][..served - 1] == rounds[..served - 1];
      }
    }
  }

  ghost predicate RaisedAmong(tasks: seq<Task>, finished: set<nat>) {
    exists t :: t in tasks && t.ending == Raised && t.id in finished
  }

  // ---------- the pass, part way ----------

  // `seen` of the list have been asked; `task` of them stayed.
  ghost predicate Passed(was: seq<Task>, finished: set<nat>, before: seq<Task>, seen: nat,
                         pending: seq<Task>, task: nat, reported: seq<Task>) {
    && seen <= |was| && task <= |pending|
    && pending[..task] == Unfinished(was[..seen], finished) && pending[task..] == was[seen..]
    && reported == before + Finished(was[..seen], finished)
    && !Throws(was[..seen], finished)
  }

  lemma Snoc(tasks: seq<Task>, t: Task, finished: set<nat>)
    ensures Unfinished(tasks + [t], finished) == Unfinished(tasks, finished) + if t.id in finished then [] else [t]
    ensures Finished(tasks + [t], finished) == Finished(tasks, finished) + if t.id in finished then [t] else []
  {}

  lemma Untouched(was: seq<Task>, finished: set<nat>, before: seq<Task>)
    ensures Passed(was, finished, before, 0, was, 0, before)
  {}

  lemma NextIs(was: seq<Task>, finished: set<nat>, before: seq<Task>, seen: nat,
               pending: seq<Task>, task: nat, reported: seq<Task>)
    requires Passed(was, finished, before, seen, pending, task, reported) && task < |pending|
    ensures seen < |was| && pending[task] == was[seen] && was[..seen + 1] == was[..seen] + [was[seen]]
  {}

  lemma KeepOne(was: seq<Task>, finished: set<nat>, before: seq<Task>, seen: nat,
                pending: seq<Task>, task: nat, reported: seq<Task>)
    requires Passed(was, finished, before, seen, pending, task, reported)
    requires task < |pending| && pending[task].id !in finished
    ensures Passed(was, finished, before, seen + 1, pending, task + 1, reported)
  {
    NextIs(was, finished, before, seen, pending, task, reported);
    Snoc(was[..seen], was[seen], finished);
    assert pending[..task + 1] == pending[..task] + [pending[task]];
    assert pending[task + 1..] == pending[task..][1..];
    assert forall i :: 0 <= i < seen ==> was[..seen + 1][i] == was[..seen][i];
  }

  lemma DropOne(was: seq<Task>, finished: set<nat>, before: seq<Task>, seen: nat,
                pending: seq<Task>, task: nat, reported: seq<Task>)
    requires Passed(was, finished, before, seen, pending, task, reported)
    requires task < |pending| && pending[task].id in finished && pending[task].ending != Raised
    ensures Passed(was, finished, before, seen + 1,
                   pending[..task] + pending[task + 1..], task, reported + [pending[task]])
  {
    NextIs(was, finished, before, seen, pending, task, reported);
    Snoc(was[..seen], was[seen], finished);
    var next := pending[..task] + pending[task + 1..];
    assert next[..task] == pending[..task];
    assert next[task..] == pending[task..][1..] == was[seen..][1..] == was[seen + 1..];
    assert forall i :: 0 <= i < seen ==> was[..seen + 1][i] == was[..seen][i];
  }

  lemma Conserved(was: seq<Task>, finished: set<nat>, before: seq<Task>, seen: nat,
                  pending: seq<Task>, task: nat, reported: seq<Task>)
    requires Passed(was, finished, before, seen, pending, task, reported)
    ensures multiset(pending) + multiset(reported) == multiset(was) + multiset(before)
  {
    Partition(was[..seen], finished);
    assert was == was[..seen] + was[seen..] && pending == pending[..task] + pending[task..];
  }

  lemma AllSeen(was: seq<Task>, finished: set<nat>, before: seq<Task>, seen: nat,
                pending: seq<Task>, task: nat, reported: seq<Task>)
    requires Passed(was, finished, before, seen, pending, task, reported) && task == |pending|
    ensures pending == Unfinished(was, finished) && reported == before + Finished(was, finished)
    ensures !Throws(was, finished)
    ensures multiset(pending) + multiset(reported) == multiset(was) + multiset(before)
  {
    Conserved(was, finished, before, seen, pending, task, reported);
    assert pending[task..] == [] && was[..seen] == was && pending[..task] == pending;
  }

  function Clients(rounds: seq<Round>): seq<Task> {
    if rounds == [] then [] else Clients(rounds[..|rounds| - 1]) + [rounds[|rounds| - 1].client]
  }
}
