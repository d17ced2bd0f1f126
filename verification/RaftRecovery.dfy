/** From every state that a run reaches, more than half of the members can still elect a leader by themselves. */
module RaftRecovery {
  import opened Options
  import opened RaftModel
  import opened RaftRuns

  /** Steps of members of `up` alone lead from `s` to `s'`. */
  ghost predicate LeadsTo(s: Cluster, s': Cluster, up: set<string>) {
    exists path: seq<Cluster>, steps: seq<Step> :: IsPath(path, steps, up) && path[0] == s && path[|path| - 1] == s'
  }

  ghost predicate IsPath(path: seq<Cluster>, steps: seq<Step>, up: set<string>) {
    |path| == |steps| + 1 && OnlyBy(steps, up) && forall k :: 0 <= k < |steps| ==> Moves(path, steps, k)
  }

  lemma StaysPut(s: Cluster, up: set<string>)
    ensures LeadsTo(s, s, up)
  {
    var path: seq<Cluster>, steps: seq<Step> := [s], [];
    assert IsPath(path, steps, up) && path[0] == s && path[|path| - 1] == s;
  }

  lemma StepsOn(s: Cluster, t: Cluster, up: set<string>, step: Step)
    requires LeadsTo(s, t, up) && Enabled(t, step) && step.id in up
    ensures LeadsTo(s, Apply(t, step), up)
  {
    var path: seq<Cluster>, steps: seq<Step> :| IsPath(path, steps, up) && path[0] == s && path[|path| - 1] == t;
    var path', steps' := path + [Apply(t, step)], steps + [step];
    forall k | 0 <= k < |steps'| ensures Moves(path', steps', k) { assert k < |steps| ==> Moves(path, steps, k); }
    assert IsPath(path', steps', up) && path'[0] == s && path'[|path'| - 1] == Apply(t, step);
  }

  // ----- a vote loop that runs can go on -----

  /** A vote loop that runs still has a peer to hear from. */
  ghost predicate LoopsGoOn(s: Cluster) {
    s.WellFormed() && forall id <- s.nodes :: s.loops[id].Collecting? ==> !(s.Peers(id) <= s.loops[id].heard)
  }

  lemma StepGoesOn(s: Cluster, step: Step)
    requires LoopsGoOn(s) && Enabled(s, step)
    ensures LoopsGoOn(Apply(s, step))
  {
    var s' := Apply(s, step);
    assert s'.nodes.Keys == s.nodes.Keys && s'.loops.Keys == s.loops.Keys;
    forall id <- s'.nodes ensures s'.loops[id].Collecting? ==> !(s'.Peers(id) <= s'.loops[id].heard) {
      assert s'.Peers(id) == s.Peers(id);
      LoopGoesOn(s, step, id);
    }
  }

  lemma LoopGoesOn(s: Cluster, step: Step, id: string)
    requires LoopsGoOn(s) && Enabled(s, step) && id in s.nodes
    ensures id in Apply(s, step).loops
    ensures Apply(s, step).loops[id].Collecting? ==> !(s.Peers(id) <= Apply(s, step).loops[id].heard)
  {
  }

  lemma {:induction false} RunGoesOn(run: seq<Cluster>, steps: seq<Step>, k: nat)
    requires IsRun(run, steps) && k < |run|
    ensures LoopsGoOn(run[k])
  {
    if k > 0 {
      RunGoesOn(run, steps, k - 1);
      assert Moves(run, steps, k - 1);
      StepGoesOn(run[k - 1], steps[k - 1]);
    }
  }

  // ----- the candidate -----

  /** The run loop of `c` waits for its timer. */
  ghost predicate Waits(s: Cluster, c: string) {
    s.WellFormed() && c in s.nodes && s.loops[c] == Idle && s.nodes[c].role != Leader
  }

  /** Results that never arrive end a vote loop. */
  lemma {:induction false} LoopRunsOut(s: Cluster, t: Cluster, up: set<string>, c: string) returns (t': Cluster)
    requires LeadsTo(s, t, up) && t.WellFormed() && c in t.nodes && c in up && t.nodes[c].role != Leader
    requires t.loops[c] == Idle || (t.loops[c].Collecting? && !(t.Peers(c) <= t.loops[c].heard))
    ensures LeadsTo(s, t', up) && Waits(t', c) && t'.nodes == t.nodes
    decreases if t.loops[c] == Idle then {} else t.Peers(c) - t.loops[c].heard, t.loops[c] != Idle
  {
    t' := t;
    if t.loops[c] != Idle {
      var p :| p in t.Peers(c) && p !in t.loops[c].heard;
      var step := CollectVote(c, p, None);
      StepsOn(s, t, up, step);
      t' := Apply(t, step);
      NothingHeard(t, c, p);
      t' := LoopRunsOut(s, t', up, c);
    }
  }

  lemma NothingHeard(t: Cluster, c: string, p: string)
    requires CanCollect(t, c, p, None)
    ensures var t' := ApplyCollectVote(t, c, p, None);
            && t'.WellFormed() && t'.nodes == t.nodes
            && t'.loops[c] == VoteLoop(t.loops[c].term, t.loops[c].votes, t.loops[c].heard + {p}, t.Peers(c))
  {
    var t' := ApplyCollectVote(t, c, p, None);
    assert t'.nodes == t.nodes;
  }

  /** Whatever its run loop was doing, it comes to wait for its timer. */
  lemma ComesToWait(s: Cluster, up: set<string>, c: string) returns (t: Cluster)
    requires LoopsGoOn(s) && c in s.nodes && c in up && s.nodes[c].role != Leader
    ensures LeadsTo(s, t, up) && Waits(t, c) && t.nodes.Keys == s.nodes.Keys
  {
    StaysPut(s, up);
    t := s;
    if s.loops[c].AboutToBeat? {
      StepsOn(s, s, up, SendHeartbeats(c));
      t := Apply(s, SendHeartbeats(c));
    } else if s.loops[c].AboutToElect? {
      t := Stands(s, s, up, c);
    }
    assert t.nodes.Keys == s.nodes.Keys;
    if t.loops[c].Collecting? { t := LoopRunsOut(s, t, up, c); }
  }

  /** The candidate has a term later than all others', and `heard` voted for it. */
  ghost predicate Standing(s: Cluster, c: string, heard: set<string>) {
    && s.WellFormed() && c in s.nodes && heard < s.Peers(c)
    && s.loops[c] == Collecting(s.nodes[c].ps.term, 1 + |heard|, heard)
    && s.nodes[c].role == Candidate && VoteRequest(s.nodes[c].ps.term, c) in s.requests
  }

  /** It starts an election, one term later. */
  lemma Stands(s: Cluster, t: Cluster, up: set<string>, c: string) returns (t': Cluster)
    requires LeadsTo(s, t, up) && t.WellFormed() && c in t.nodes && c in up && t.loops[c] == AboutToElect
    ensures LeadsTo(s, t', up) && t'.WellFormed()
    ensures t'.nodes == t.nodes[c := BecomeCandidate(c, t.nodes[c])]
    ensures t'.loops[c] == Idle || (t'.loops[c].Collecting? && !(t'.Peers(c) <= t'.loops[c].heard))
    ensures t.Peers(c) != {} ==> Standing(t', c, {})
  {
    StepsOn(s, t, up, StartElection(c));
    t' := Apply(t, StartElection(c));
    assert t'.Peers(c) == t.Peers(c);
  }

  lemma TimesOut(s: Cluster, t: Cluster, up: set<string>, c: string) returns (t': Cluster)
    requires LeadsTo(s, t, up) && Waits(t, c) && c in up
    ensures LeadsTo(s, t', up) && t'.WellFormed() && t'.nodes == t.nodes && t'.loops[c] == AboutToElect
  {
    StepsOn(s, t, up, TimerFires(c));
    t' := Apply(t, TimerFires(c));
    assert t'.nodes == t.nodes;
  }

  /** All others are in terms before `term`. */
  ghost predicate OthersBefore(s: Cluster, c: string, term: nat) {
    forall p <- s.nodes :: p != c ==> s.nodes[p].ps.term < term
  }

  /** One election after the other, it overtakes the terms of all others: the timer of a candidate fires again. */
  lemma {:induction false} Overtakes(s: Cluster, t: Cluster, up: set<string>, c: string, last: nat)
    returns (t': Cluster)
    requires LeadsTo(s, t, up) && Waits(t, c) && c in up && t.Peers(c) != {} && OthersBefore(t, c, last)
    ensures LeadsTo(s, t', up) && t'.nodes.Keys == t.nodes.Keys && Standing(t', c, {})
    ensures OthersBefore(t', c, t'.nodes[c].ps.term)
    decreases last - t.nodes[c].ps.term
  {
    t' := TimesOut(s, t, up, c);
    t' := Stands(s, t', up, c);
    assert t'.nodes.Keys == t.nodes.Keys;
    if t'.nodes[c].ps.term < last {
      t' := LoopRunsOut(s, t', up, c);
      t' := Overtakes(s, t', up, c, last);
    }
  }

  lemma {:induction false} SomeBound(s: Cluster, ids: set<string>) returns (last: nat)
    requires ids <= s.nodes.Keys
    ensures forall p <- ids :: s.nodes[p].ps.term < last
  {
    last := 0;
    if ids != {} {
      var p :| p in ids;
      var rest := SomeBound(s, ids - {p});
      last := if s.nodes[p].ps.term < rest then rest else s.nodes[p].ps.term + 1;
    }
  }

  // ----- the votes -----

  /** A peer in an earlier term serves the request, whatever else it is doing, and the candidate takes its vote. */
  lemma VoteArrives(s: Cluster, t: Cluster, up: set<string>, c: string, heard: set<string>, p: string)
    returns (t': Cluster)
    requires LeadsTo(s, t, up) && Standing(t, c, heard) && c in up && p in up && p in t.Peers(c) - heard
    requires t.nodes[p].ps.term < t.nodes[c].ps.term
    ensures LeadsTo(s, t', up) && t'.WellFormed() && t'.nodes.Keys == t.nodes.Keys
    ensures forall q <- t.nodes :: q != c && q != p ==> t'.nodes[q] == t.nodes[q]
    ensures VoteRequest(t.nodes[c].ps.term, c) in t'.requests
    ensures (t'.nodes[c], t'.loops[c]) == TakeResult(c, t.nodes[c], t.loops[c], p,
                                                     Some(VoteReply(t.nodes[c].ps.term, true)), t.Peers(c))
  {
    var term := t.nodes[c].ps.term;
    var serve, collect := ServeVote(p, VoteRequest(term, c)), CollectVote(c, p, Some(VoteReply(term, true)));
    StepsOn(s, t, up, serve);
    var u := Apply(t, serve);
    PeerServes(t, c, p, term);
    assert u.Peers(c) == t.Peers(c);
    StepsOn(s, u, up, collect);
    t' := Apply(u, collect);
  }

  lemma PeerServes(t: Cluster, c: string, p: string, term: nat)
    requires t.WellFormed() && c in t.nodes && p in t.Peers(c) && t.nodes[p].ps.term < term
    ensures var u := ApplyServeVote(t, p, VoteRequest(term, c));
            && u.WellFormed() && u.nodes.Keys == t.nodes.Keys && u.loops == t.loops && u.requests == t.requests
            && (forall q <- t.nodes :: q != p ==> u.nodes[q] == t.nodes[q])
            && VoteMessage(p, c, term, VoteReply(term, true)) in u.votes
  {
    var u := ApplyServeVote(t, p, VoteRequest(term, c));
    assert u.nodes.Keys == t.nodes.Keys && u.loops == t.loops;
  }

  /** With more than half of the members up, the votes make it leader. */
  lemma {:induction false} VotesWin(s: Cluster, t: Cluster, up: set<string>, c: string, heard: set<string>)
    returns (t': Cluster)
    requires LeadsTo(s, t, up) && Standing(t, c, heard) && c in up && up <= t.nodes.Keys && heard <= up
    requires 2 * |up| > |t.nodes.Keys| && 2 * (1 + |heard|) <= |t.nodes.Keys|
    requires UnheardBefore(t, c, heard)
    ensures LeadsTo(s, t', up) && t'.nodes.Keys == t.nodes.Keys && HasLeader(t')
    decreases up - heard
  {
    var p := UnheardPeer(up, c, heard);
    t' := VoteArrives(s, t, up, c, heard, p);
    OneMoreVote(t, t', c, heard, p);
    if 2 * (2 + |heard|) <= |t.nodes.Keys| {
      t' := VotesWin(s, t', up, c, heard + {p});
    } else {
      assert c in t'.nodes && t'.nodes[c].role == Leader;
    }
  }

  ghost predicate UnheardBefore(s: Cluster, c: string, heard: set<string>)
    requires c in s.nodes
  {
    forall p <- s.Peers(c) - heard :: s.nodes[p].ps.term < s.nodes[c].ps.term
  }

  lemma OneMoreVote(t: Cluster, t': Cluster, c: string, heard: set<string>, p: string)
    requires Standing(t, c, heard) && UnheardBefore(t, c, heard) && p in t.Peers(c) - heard
    requires t'.WellFormed() && t'.nodes.Keys == t.nodes.Keys
    requires forall q <- t.nodes :: q != c && q != p ==> t'.nodes[q] == t.nodes[q]
    requires VoteRequest(t.nodes[c].ps.term, c) in t'.requests
    requires (t'.nodes[c], t'.loops[c]) == TakeResult(c, t.nodes[c], t.loops[c], p,
                                                      Some(VoteReply(t.nodes[c].ps.term, true)), t.Peers(c))
    ensures if 2 * (2 + |heard|) <= |t.nodes.Keys|
            then Standing(t', c, heard + {p}) && UnheardBefore(t', c, heard + {p})
            else t'.nodes[c].role == Leader
  {
    EnoughVotes(t, c, heard, p);
    assert t'.Peers(c) == t.Peers(c);
    TakesVote(c, t.nodes[c], heard, p, t.Peers(c));
  }

  lemma TakesVote(c: string, n: Node, heard: set<string>, p: string, peers: set<string>)
    requires n.role == Candidate && p !in heard
    ensures TakeResult(c, n, Collecting(n.ps.term, 1 + |heard|, heard), p, Some(VoteReply(n.ps.term, true)), peers)
         == if 2 + |heard| >= Majority(|peers| + 1) then (BecomeLeader(c, n), AboutToBeat)
            else (n, VoteLoop(n.ps.term, 1 + |heard + {p}|, heard + {p}, peers))
  {
  }

  lemma EnoughVotes(t: Cluster, c: string, heard: set<string>, p: string)
    requires t.WellFormed() && c in t.nodes && heard < t.Peers(c) && p in t.Peers(c) - heard
    ensures 2 + |heard| >= Majority(|t.Peers(c)| + 1) <==> 2 * (2 + |heard|) > |t.nodes.Keys|
    ensures 2 * (2 + |heard|) <= |t.nodes.Keys| ==> heard + {p} < t.Peers(c)
  {
    assert t.nodes.Keys == t.Peers(c) + {c};
    if t.Peers(c) <= heard + {p} { assert t.Peers(c) == heard + {p}; }
  }

  // ----- the theorem -----

  /** From every reachable state, whatever has happened and whatever messages are still on their way, any more than half
      of at least two members can elect a leader without the others taking a step. */
  lemma LeaderCanAlwaysBeElected(run: seq<Cluster>, steps: seq<Step>, k: nat, up: set<string>)
    requires IsRun(run, steps) && k < |run| && |run[k].nodes.Keys| >= 2
    requires up <= run[k].nodes.Keys && 2 * |up| > |run[k].nodes.Keys|
    ensures exists s' :: LeadsTo(run[k], s', up) && s'.nodes.Keys == run[k].nodes.Keys && HasLeader(s')
  {
    var s := run[k];
    if HasLeader(s) {
      StaysPut(s, up);
    } else {
      RunGoesOn(run, steps, k);
      var c :| c in up;
      var t := Recovers(s, up, c);
    }
  }

  lemma Recovers(s: Cluster, up: set<string>, c: string) returns (t: Cluster)
    requires LoopsGoOn(s) && !HasLeader(s) && |s.nodes.Keys| >= 2 && c in up
    requires up <= s.nodes.Keys && 2 * |up| > |s.nodes.Keys|
    ensures LeadsTo(s, t, up) && t.nodes.Keys == s.nodes.Keys && HasLeader(t)
  {
    t := ComesToWait(s, up, c);
    assert t.Peers(c) != {} by {
      assert s.nodes.Keys == t.Peers(c) + {c};
    }
    var last := SomeBound(t, t.nodes.Keys);
    t := Overtakes(s, t, up, c, last);
    t := VotesWin(s, t, up, c, {});
  }
}
