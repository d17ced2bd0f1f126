/** The coordinator flag of each node: `cmd/cachenode/main.go` sets it when its Raft node announces a victory, and
    nothing but a restart clears it. */
module CoordinatorFlags {
  import opened Options
  import opened RaftModel
  import opened RaftSafety

  /** A step that leads to `s'` made `id` a leader, and so set its flag. */
  predicate Wins(step: Step, s': Cluster, id: string) {
    step.CollectVote? && step.id == id && id in s'.loops && s'.loops[id].AboutToBeat?
  }

  /** The process of `id` starts anew. */
  predicate Restarts(step: Step, id: string) { (step.Restart? || step.CrashInVote?) && step.id == id }

  function FlagsAfter(flags: set<string>, step: Step, s': Cluster): set<string> {
    if Restarts(step, step.id) then flags - {step.id}
    else if Wins(step, s', step.id) then flags + {step.id}
    else flags
  }

  /** The nodes whose flag is set after the first `k` steps. */
  function Flags(run: seq<Cluster>, steps: seq<Step>, k: nat): set<string>
    requires k <= |steps| < |run|
  {
    if k == 0 then {} else FlagsAfter(Flags(run, steps, k - 1), steps[k - 1], run[k])
  }

  /** `id` won at step `i` and did not restart before state `k`. */
  ghost predicate WonSince(run: seq<Cluster>, steps: seq<Step>, i: int, k: int, id: string)
    requires k <= |steps| < |run|
  {
    0 <= i < k && Wins(steps[i], run[i + 1], id) && forall j :: i < j < k ==> !Restarts(steps[j], id)
  }

  /** In every run, a flag is set if and only if its node has won an election since it last started: losing leadership
      again does not clear it. */
  lemma {:induction false} FlaggedIff(run: seq<Cluster>, steps: seq<Step>, k: nat, id: string)
    requires k <= |steps| < |run|
    ensures id in Flags(run, steps, k) <==> exists i :: WonSince(run, steps, i, k, id)
  {
    if k > 0 {
      FlaggedIff(run, steps, k - 1, id);
      var step := steps[k - 1];
      if Restarts(step, id) {
        forall i ensures !WonSince(run, steps, i, k, id) {}
      } else if Wins(step, run[k], id) {
        assert WonSince(run, steps, k - 1, k, id);
      } else if id in Flags(run, steps, k - 1) {
        var i :| WonSince(run, steps, i, k - 1, id);
        assert WonSince(run, steps, i, k, id);
      } else {
        forall i ensures !WonSince(run, steps, i, k, id) { assert !WonSince(run, steps, i, k - 1, id); }
      }
    }
  }

  lemma WinnerLeads(s: Cluster, step: Step, id: string)
    requires Enabled(s, step) && Wins(step, Apply(s, step), id)
    ensures var s' := Apply(s, step); id in s'.nodes && s'.nodes[id].role == Leader
  {
  }

  /** Nodes that won at two steps of a run, and are not the same, won different terms. */
  lemma WinsInDifferentTerms(run: seq<Cluster>, steps: seq<Step>, i: nat, j: nat, a: string, b: string)
    requires IsRun(run, steps) && i < |steps| && j < |steps|
    requires Wins(steps[i], run[i + 1], a) && Wins(steps[j], run[j + 1], b) && a != b
    ensures a in run[i + 1].nodes && b in run[j + 1].nodes
    ensures run[i + 1].nodes[a].ps.term != run[j + 1].nodes[b].ps.term
  {
    assert Moves(run, steps, i) && Moves(run, steps, j);
    WinnerLeads(run[i], steps[i], a);
    WinnerLeads(run[j], steps[j], b);
    if run[i + 1].nodes[a].ps.term == run[j + 1].nodes[b].ps.term {
      ElectionSafety(run, steps, i + 1, j + 1, a, b);
    }
  }

  /** `id` has won the election of `term` and did not restart since. */
  ghost predicate HasWonTerm(run: seq<Cluster>, steps: seq<Step>, k: int, id: string, term: nat)
    requires k <= |steps| < |run|
  {
    exists i :: WonSince(run, steps, i, k, id) && id in run[i + 1].nodes && run[i + 1].nodes[id].ps.term == term
  }

  /** In every run, two nodes think they coordinate if and only if two nodes have won different terms since they last
      started. */
  lemma TwoCoordinatorsIff(run: seq<Cluster>, steps: seq<Step>, k: nat)
    requires IsRun(run, steps) && k <= |steps|
    ensures (exists a, b :: a in Flags(run, steps, k) && b in Flags(run, steps, k) && a != b)
       <==> exists a, b, t, u :: HasWonTerm(run, steps, k, a, t) && HasWonTerm(run, steps, k, b, u) && a != b && t != u
  {
    if a, b :| a in Flags(run, steps, k) && b in Flags(run, steps, k) && a != b {
      FlaggedIff(run, steps, k, a);
      FlaggedIff(run, steps, k, b);
      var i :| WonSince(run, steps, i, k, a);
      var j :| WonSince(run, steps, j, k, b);
      WinsInDifferentTerms(run, steps, i, j, a, b);
      assert HasWonTerm(run, steps, k, a, run[i + 1].nodes[a].ps.term);
      assert HasWonTerm(run, steps, k, b, run[j + 1].nodes[b].ps.term);
    }
    if a, b, t, u :| HasWonTerm(run, steps, k, a, t) && HasWonTerm(run, steps, k, b, u) && a != b && t != u {
      FlaggedIff(run, steps, k, a);
      FlaggedIff(run, steps, k, b);
      assert a in Flags(run, steps, k) && b in Flags(run, steps, k);
    }
  }

  /** In every run, a leader's flag is set. */
  lemma {:induction false} LeadersAreFlagged(run: seq<Cluster>, steps: seq<Step>, k: nat, id: string)
    requires IsRun(run, steps) && k <= |steps| && id in run[k].nodes && run[k].nodes[id].role == Leader
    ensures id in Flags(run, steps, k)
  {
    if k > 0 {
      assert Moves(run, steps, k - 1);
      LeadersWinOrStay(run[k - 1], steps[k - 1], id);
      if !Wins(steps[k - 1], run[k], id) { LeadersAreFlagged(run, steps, k - 1, id); }
    }
  }

  lemma LeadersWinOrStay(s: Cluster, step: Step, id: string)
    requires Enabled(s, step) && id in Apply(s, step).nodes && Apply(s, step).nodes[id].role == Leader
    ensures !Restarts(step, id)
    ensures Wins(step, Apply(s, step), id) || (id in s.nodes && s.nodes[id].role == Leader)
  {
  }

  // ----- a run with two coordinators -----

  ghost predicate Traced(s: Cluster, flags: set<string>) {
    exists run, steps :: Trace(run, steps, s, flags)
  }

  ghost predicate Trace(run: seq<Cluster>, steps: seq<Step>, s: Cluster, flags: set<string>) {
    IsRun(run, steps) && run[|steps|] == s && Flags(run, steps, |steps|) == flags
  }

  lemma {:induction false} FlagsOfPrefix(run: seq<Cluster>, steps: seq<Step>, run': seq<Cluster>, steps': seq<Step>,
                                         k: nat)
    requires k <= |steps| < |run| <= |run'| && |steps| <= |steps'| < |run'|
    requires run == run'[..|run|] && steps == steps'[..|steps|]
    ensures Flags(run, steps, k) == Flags(run', steps', k)
  {
    if k > 0 {
      FlagsOfPrefix(run, steps, run', steps', k - 1);
      assert run[k] == run'[k] && steps[k - 1] == steps'[k - 1];
    }
  }

  lemma RunGoesOn(run: seq<Cluster>, steps: seq<Step>, step: Step)
    requires IsRun(run, steps) && Enabled(run[|steps|], step)
    ensures IsRun(run + [Apply(run[|steps|], step)], steps + [step])
  {
    var run', steps' := run + [Apply(run[|steps|], step)], steps + [step];
    forall k | 0 <= k < |steps'| ensures Moves(run', steps', k) { assert k < |steps| ==> Moves(run, steps, k); }
  }

  lemma Next(s: Cluster, flags: set<string>, step: Step) returns (s': Cluster, flags': set<string>)
    requires Traced(s, flags) && Enabled(s, step)
    ensures s' == Apply(s, step) && flags' == FlagsAfter(flags, step, s') && Traced(s', flags')
  {
    s' := Apply(s, step);
    flags' := FlagsAfter(flags, step, s');
    var run, steps :| Trace(run, steps, s, flags);
    TraceGoesOn(run, steps, s, flags, step);
  }

  lemma TraceGoesOn(run: seq<Cluster>, steps: seq<Step>, s: Cluster, flags: set<string>, step: Step)
    requires Trace(run, steps, s, flags) && Enabled(s, step)
    ensures Trace(run + [Apply(s, step)], steps + [step], Apply(s, step), FlagsAfter(flags, step, Apply(s, step)))
  {
    RunGoesOn(run, steps, step);
    FlagsOfPrefix(run, steps, run + [Apply(s, step)], steps + [step], |steps|);
  }

  /** An election that the candidate `c` wins by the vote of `p`, the only other member. */
  lemma Elected(s: Cluster, flags: set<string>, c: string, p: string) returns (s': Cluster, flags': set<string>)
    requires Traced(s, flags) && s.WellFormed() && s.nodes.Keys == {c, p} && c != p
    requires s.loops[c] == Idle && s.nodes[c].role != Leader && s.nodes[p].ps.term == s.nodes[c].ps.term
    ensures Traced(s', flags') && flags' == flags + {c} && s'.WellFormed() && s'.nodes.Keys == {c, p}
    ensures s'.nodes[c].role == Leader && s'.nodes[p].role == Follower && s'.loops[p] == s.loops[p]
    ensures s'.nodes[p].ps.term == s'.nodes[c].ps.term
  {
    s' := Candidacy(s, flags, c, p);
    s', flags' := Voted(s', flags, c, p, s.nodes[c].ps.term + 1);
  }

  lemma Candidacy(s: Cluster, flags: set<string>, c: string, p: string) returns (s': Cluster)
    requires Traced(s, flags) && s.WellFormed() && s.nodes.Keys == {c, p} && c != p
    requires s.loops[c] == Idle && s.nodes[c].role != Leader
    ensures Traced(s', flags) && s'.WellFormed() && s'.nodes.Keys == {c, p}
    ensures var term := s.nodes[c].ps.term + 1;
            && s'.nodes[c].role == Candidate && s'.nodes[c].ps.term == term && s'.nodes[p] == s.nodes[p]
            && s'.loops[c] == Collecting(term, 1, {}) && s'.loops[p] == s.loops[p]
            && VoteRequest(term, c) in s'.requests
  {
    var flags';
    s', flags' := Next(s, flags, TimerFires(c));
    assert s'.nodes == s.nodes && s'.loops == s.loops[c := AboutToElect] && s'.WellFormed();
    Stands(s', c, p);
    s', flags' := Next(s', flags', StartElection(c));
  }

  lemma Stands(s: Cluster, c: string, p: string)
    requires s.WellFormed() && s.nodes.Keys == {c, p} && c != p && s.loops[c] == AboutToElect
    ensures var term, s' := s.nodes[c].ps.term + 1, Apply(s, StartElection(c));
            && s'.WellFormed() && s'.nodes == s.nodes[c := BecomeCandidate(c, s.nodes[c])] && s'.nodes.Keys == {c, p}
            && s'.loops == s.loops[c := Collecting(term, 1, {})] && VoteRequest(term, c) in s'.requests
  {
    assert s.Peers(c) == {p};
    var s' := Apply(s, StartElection(c));
    assert s'.nodes.Keys == {c, p} && s'.loops.Keys == {c, p};
  }

  lemma Voted(s: Cluster, flags: set<string>, c: string, p: string, term: nat)
    returns (s': Cluster, flags': set<string>)
    requires Traced(s, flags) && s.WellFormed() && s.nodes.Keys == {c, p} && c != p
    requires s.loops[c] == Collecting(term, 1, {}) && s.nodes[c].role == Candidate && s.nodes[c].ps.term == term
    requires s.nodes[p].ps.term < term && VoteRequest(term, c) in s.requests
    ensures Traced(s', flags') && flags' == flags + {c} && s'.WellFormed() && s'.nodes.Keys == {c, p}
    ensures s'.nodes[c].role == Leader && s'.nodes[p].role == Follower && s'.loops[p] == s.loops[p]
    ensures s'.nodes[p].ps.term == s'.nodes[c].ps.term
  {
    Grants(s, c, p, term);
    s', flags' := Next(s, flags, ServeVote(p, VoteRequest(term, c)));
    Counts(s', c, p, term);
    s', flags' := Next(s', flags', CollectVote(c, p, Some(VoteReply(term, true))));
  }

  lemma Grants(s: Cluster, c: string, p: string, term: nat)
    requires s.WellFormed() && s.nodes.Keys == {c, p} && c != p
    requires s.nodes[p].ps.term < term && VoteRequest(term, c) in s.requests
    ensures Enabled(s, ServeVote(p, VoteRequest(term, c)))
    ensures var s' := Apply(s, ServeVote(p, VoteRequest(term, c)));
            && s'.WellFormed() && s'.nodes.Keys == {c, p} && s'.nodes[c] == s.nodes[c] && s'.loops == s.loops
            && s'.nodes[p].ps == Saved(term, c) && s'.nodes[p].role == Follower
            && VoteMessage(p, c, term, VoteReply(term, true)) in s'.votes
  {
    var s' := Apply(s, ServeVote(p, VoteRequest(term, c)));
    assert s'.nodes.Keys == {c, p} && s'.loops == s.loops;
  }

  lemma Counts(s: Cluster, c: string, p: string, term: nat)
    requires s.WellFormed() && s.nodes.Keys == {c, p} && c != p
    requires VoteMessage(p, c, term, VoteReply(term, true)) in s.votes
    requires s.loops[c] == Collecting(term, 1, {}) && s.nodes[c].role == Candidate && s.nodes[c].ps.term == term
    ensures var step := CollectVote(c, p, Some(VoteReply(term, true)));
            && Enabled(s, step)
            && var s' := Apply(s, step);
               && s'.WellFormed() && s'.nodes == s.nodes[c := BecomeLeader(c, s.nodes[c])]
               && s'.loops == s.loops[c := AboutToBeat] && s'.nodes.Keys == {c, p}
  {
    assert s.Peers(c) == {p};
    var s' := Apply(s, CollectVote(c, p, Some(VoteReply(term, true))));
    assert s'.nodes.Keys == {c, p} && s'.loops.Keys == {c, p};
  }

  /** "One coordinator at a time" does not hold: "a" wins, then "b" wins, and both flags are set. */
  lemma TwoCoordinatorsAreReachable() returns (s: Cluster)
    ensures Traced(s, {"a", "b"}) && s.nodes.Keys == {"a", "b"} && s.nodes["a"].role != Leader
  {
    var nodes := map["a" := FreshNode(), "b" := FreshNode()];
    s := Cluster(nodes, map["a" := Idle, "b" := Idle], {}, {}, {}, {}, {}, {});
    assert Trace([s], [], s, {});
    var flags: set<string> := {};
    s, flags := Elected(s, flags, "a", "b");
    s, flags := Elected(s, flags, "b", "a");
    assert flags == {"a", "b"};
  }
}
