/** Which clusters can elect a leader at all, and the gap between a leader's check and its heartbeat. */
module RaftRuns {
  import opened Options
  import opened RaftModel
  import opened RaftSafety

  /** Only members of `up` take a step; the others are down. */
  ghost predicate OnlyBy(steps: seq<Step>, up: set<string>) { forall k :: 0 <= k < |steps| ==> steps[k].id in up }

  ghost predicate ReachableBy(s: Cluster, up: set<string>) {
    exists run, steps :: IsRun(run, steps) && OnlyBy(steps, up) && run[|run| - 1] == s
  }

  ghost predicate Reachable(s: Cluster) { ReachableBy(s, s.nodes.Keys) }

  lemma StepBy(s: Cluster, up: set<string>, step: Step)
    requires ReachableBy(s, up) && Enabled(s, step) && step.id in up
    ensures ReachableBy(Apply(s, step), up)
  {
    var run, steps :| IsRun(run, steps) && OnlyBy(steps, up) && run[|run| - 1] == s;
    var run', steps' := run + [Apply(s, step)], steps + [step];
    forall k | 0 <= k < |steps'| ensures Moves(run', steps', k) { assert k < |steps| ==> Moves(run, steps, k); }
    assert IsRun(run', steps') && OnlyBy(steps', up) && run'[|run'| - 1] == Apply(s, step);
  }

  lemma ReachableStep(s: Cluster, step: Step)
    requires Reachable(s) && Enabled(s, step)
    ensures Reachable(Apply(s, step))
  {
    StepBy(s, s.nodes.Keys, step);
    assert Apply(s, step).nodes.Keys == s.nodes.Keys;
  }

  function InitialCluster(members: set<string>): Cluster {
    Cluster(map id | id in members :: FreshNode(), map id | id in members :: Idle, {}, {}, {}, {}, {}, {})
  }

  lemma InitialIsReachable(members: set<string>, up: set<string>)
    requires "" !in members
    ensures ReachableBy(InitialCluster(members), up)
  {
    var run: seq<Cluster>, steps: seq<Step> := [InitialCluster(members)], [];
    assert IsRun(run, steps) && OnlyBy(steps, up) && run[|run| - 1] == InitialCluster(members);
  }

  ghost predicate HasLeader(s: Cluster) { exists id <- s.nodes :: s.nodes[id].role == Leader }

  ghost predicate CanElect(members: set<string>) {
    exists s :: Reachable(s) && s.nodes.Keys == members && HasLeader(s)
  }

  /** Some run in which only the members `up` ever take a step elects a leader. */
  ghost predicate CanElectWith(members: set<string>, up: set<string>) {
    exists s :: ReachableBy(s, up) && s.nodes.Keys == members && HasLeader(s)
  }

  // ----- a cluster of one never elects -----

  ghost predicate NoElection(s: Cluster) { s.victories == {} && forall id <- s.loops :: !s.loops[id].Collecting? }

  /** Without peers, the vote loop's body never runs. */
  lemma LonelyStep(s: Cluster, step: Step)
    requires Enabled(s, step) && |s.nodes.Keys| == 1 && NoElection(s)
    ensures NoElection(Apply(s, step))
  {
    assert s.Peers(step.id) == {} by {
      SubsetSize(s.Peers(step.id) + {step.id}, s.nodes.Keys);
    }
    assert !s.loops[step.id].Collecting?;
  }

  lemma {:induction false} LonelyRun(run: seq<Cluster>, steps: seq<Step>, k: nat)
    requires IsRun(run, steps) && k < |run| && |run[k].nodes.Keys| == 1
    ensures NoElection(run[k])
  {
    if k > 0 {
      RunGrows(run, steps, k - 1, k);
      LonelyRun(run, steps, k - 1);
      assert Moves(run, steps, k - 1);
      LonelyStep(run[k - 1], steps[k - 1]);
    }
  }

  lemma LonelyNodeNeverLeads(run: seq<Cluster>, steps: seq<Step>, k: nat, id: string)
    requires IsRun(run, steps) && k < |run| && |run[k].nodes| == 1 && id in run[k].nodes
    ensures run[k].nodes[id].role != Leader
  {
    assert |run[k].nodes.Keys| == |run[k].nodes|;
    LonelyRun(run, steps, k);
    RunKeepsInv(run, steps, k);
    assert NodeOk(run[k], id);
  }

  // ----- a cluster of two or more can -----

  /** An election of `c` for term 1 in which all peers heard so far granted and the others are untouched. */
  ghost predicate Underway(s: Cluster, c: string, heard: set<string>) {
    && s.WellFormed() && c in s.nodes && heard < s.Peers(c)
    && s.loops[c] == Collecting(1, 1 + |heard|, heard)
    && s.nodes[c].role == Candidate && s.nodes[c].ps == Saved(1, c)
    && VoteRequest(1, c) in s.requests
    && s.victories == {}
    && (forall p <- s.nodes :: p != c ==> s.loops[p] == Idle && s.nodes[p].role == Follower)
    && (forall p <- s.Peers(c) - heard :: s.nodes[p] == FreshNode())
  }

  /** `c` has just won term 1 and not yet sent its heartbeats; every other node is an idle follower of that term. */
  ghost predicate JustWon(s: Cluster, c: string) {
    && s.WellFormed() && c in s.nodes
    && s.loops[c] == AboutToBeat && s.nodes[c].role == Leader && s.nodes[c].ps == Saved(1, c)
    && s.victories == {Victory(1, c)}
    && (forall p <- s.nodes :: p != c ==> s.loops[p] == Idle && s.nodes[p].role == Follower)
    && (exists p <- s.Peers(c) :: s.nodes[p].ps == Saved(1, c))
  }

  lemma ElectionStarts(members: set<string>, up: set<string>, c: string) returns (s: Cluster)
    requires "" !in members && c in up && up <= members && |members| >= 2
    ensures ReachableBy(s, up) && s.nodes.Keys == members && Underway(s, c, {})
  {
    InitialIsReachable(members, up);
    var s0 := InitialCluster(members);
    StepBy(s0, up, TimerFires(c));
    var s1 := Apply(s0, TimerFires(c));
    StepBy(s1, up, StartElection(c));
    s := Apply(s1, StartElection(c));
    assert s.nodes.Keys == members;
    if s.Peers(c) == {} {
      SubsetSize(members, {c});
    }
  }

  /** An unheard peer serves the candidate's request and grants its vote. */
  lemma PeerGrants(s: Cluster, c: string, heard: set<string>, p: string)
    requires Underway(s, c, heard) && p in s.Peers(c) - heard
    ensures Enabled(s, ServeVote(p, VoteRequest(1, c)))
    ensures var s' := Apply(s, ServeVote(p, VoteRequest(1, c)));
            && s'.nodes == s.nodes[p := Reload(Saved(1, c))] && s'.loops == s.loops
            && s'.requests == s.requests && s'.victories == s.victories
            && VoteMessage(p, c, 1, VoteReply(1, true)) in s'.votes
  {
    assert s.nodes[p] == FreshNode();
    assert ApplyServeVote(s, p, VoteRequest(1, c)).loops == s.loops;
  }

  /** An unheard peer serves the request and the candidate takes the grant: it wins, or goes on with one peer more. */
  lemma PeerVotes(s: Cluster, up: set<string>, c: string, heard: set<string>, p: string) returns (s': Cluster)
    requires ReachableBy(s, up) && Underway(s, c, heard) && p in s.Peers(c) - heard && c in up && p in up
    ensures ReachableBy(s', up)
    ensures var (n', loop') := TakeResult(c, s.nodes[c], s.loops[c], p, Some(VoteReply(1, true)), s.Peers(c));
            && s'.nodes == s.nodes[p := Reload(Saved(1, c))][c := n'] && s'.loops == s.loops[c := loop']
            && s'.requests == s.requests && s'.victories == if loop'.AboutToBeat? then {Victory(1, c)} else {}
  {
    var serve, collect := ServeVote(p, VoteRequest(1, c)), CollectVote(c, p, Some(VoteReply(1, true)));
    PeerGrants(s, c, heard, p);
    StepBy(s, up, serve);
    var s1 := Apply(s, serve);
    assert s1.Peers(c) == s.Peers(c);
    StepBy(s1, up, collect);
    s' := Apply(s1, collect);
  }

  lemma CandidateWins(s: Cluster, s': Cluster, c: string, heard: set<string>, p: string)
    requires Underway(s, c, heard) && p in s.Peers(c) - heard
    requires s'.nodes == s.nodes[p := Reload(Saved(1, c))][c := BecomeLeader(c, s.nodes[c])]
    requires s'.loops == s.loops[c := AboutToBeat] && s'.victories == {Victory(1, c)}
    ensures s'.nodes.Keys == s.nodes.Keys && JustWon(s', c)
  {
    assert s'.nodes.Keys == s.nodes.Keys;
    assert s'.nodes[p].ps == Saved(1, c);
  }

  lemma CandidateGoesOn(s: Cluster, s': Cluster, c: string, heard: set<string>, p: string)
    requires Underway(s, c, heard) && p in s.Peers(c) - heard && heard + {p} < s.Peers(c)
    requires s'.nodes == s.nodes[p := Reload(Saved(1, c))][c := s.nodes[c]]
    requires s'.loops == s.loops[c := Collecting(1, 2 + |heard|, heard + {p})]
    requires s'.requests == s.requests && s'.victories == {}
    ensures s'.nodes.Keys == s.nodes.Keys && Underway(s', c, heard + {p})
  {
    assert s'.nodes.Keys == s.nodes.Keys;
  }

  /** More than half of the members are up and the candidate has not won yet: another member that is up will vote. */
  lemma {:induction false} ElectionProceeds(s: Cluster, up: set<string>, c: string, heard: set<string>)
    returns (s': Cluster)
    requires ReachableBy(s, up) && Underway(s, c, heard) && c in up && up <= s.nodes.Keys && heard <= up
    requires 2 * |up| > |s.nodes.Keys| && 2 * (1 + |heard|) <= |s.nodes.Keys|
    ensures ReachableBy(s', up) && s'.nodes.Keys == s.nodes.Keys && JustWon(s', c)
    decreases up - heard
  {
    var p := UnheardPeer(up, c, heard);
    s' := PeerVotes(s, up, c, heard, p);
    CountedSoFar(s, c, heard, p);
    if 2 * (2 + |heard|) > |s.nodes.Keys| {
      CandidateWins(s, s', c, heard, p);
    } else {
      CandidateGoesOn(s, s', c, heard, p);
      s' := ElectionProceeds(s', up, c, heard + {p});
    }
  }

  lemma UnheardPeer(up: set<string>, c: string, heard: set<string>) returns (p: string)
    requires |up| > 1 + |heard|
    ensures p in up && p != c && p !in heard
  {
    assert |heard + {c}| <= |heard| + 1;
    if up - (heard + {c}) == {} { SubsetSize(up, heard + {c}); }
    p :| p in up - (heard + {c});
  }

  lemma CountedSoFar(s: Cluster, c: string, heard: set<string>, p: string)
    requires Underway(s, c, heard) && p in s.Peers(c) - heard
    ensures 2 + |heard| >= Majority(|s.Peers(c)| + 1) <==> 2 * (2 + |heard|) > |s.nodes.Keys|
    ensures 2 * (2 + |heard|) <= |s.nodes.Keys| ==> heard + {p} < s.Peers(c)
  {
    assert s.nodes.Keys == s.Peers(c) + {c};
    if s.Peers(c) <= heard + {p} { assert s.Peers(c) == heard + {p}; }
  }

  /** A cluster can ever have a leader exactly if it has at least two members: with no peers the vote loop never
      runs. */
  lemma CanElectIff(members: set<string>)
    requires "" !in members
    ensures CanElect(members) <==> |members| >= 2
  {
    if |members| >= 2 {
      CanElectWithIff(members, members);
      var s :| ReachableBy(s, members) && s.nodes.Keys == members && HasLeader(s);
      assert Reachable(s);
    } else if CanElect(members) {
      var s :| Reachable(s) && s.nodes.Keys == members && HasLeader(s);
      LeaderHasPeers(s, members);
    }
  }

  lemma LeaderHasPeers(s: Cluster, up: set<string>)
    requires ReachableBy(s, up) && HasLeader(s)
    ensures |s.nodes.Keys| >= 2
  {
    var run, steps :| IsRun(run, steps) && OnlyBy(steps, up) && run[|run| - 1] == s;
    var id :| id in s.nodes && s.nodes[id].role == Leader;
    SubsetSize({id}, s.nodes.Keys);
    assert |s.nodes.Keys| == |s.nodes|;
    if |s.nodes| == 1 { LonelyNodeNeverLeads(run, steps, |run| - 1, id); }
  }

  // ----- with some members down -----

  /** Who takes no step casts no ballot. */
  lemma {:induction false} OnlyTheyVote(run: seq<Cluster>, steps: seq<Step>, up: set<string>, k: nat)
    requires IsRun(run, steps) && OnlyBy(steps, up) && k < |run|
    ensures forall b <- run[k].ballots :: b.voter in up
  {
    if k > 0 {
      OnlyTheyVote(run, steps, up, k - 1);
      assert Moves(run, steps, k - 1);
      VoterIsStepper(run[k - 1], steps[k - 1]);
    }
  }

  lemma VoterIsStepper(s: Cluster, step: Step)
    requires Enabled(s, step)
    ensures forall b <- Apply(s, step).ballots - s.ballots :: b.voter == step.id
  {
  }

  lemma LeaderNeedsMoreThanHalf(s: Cluster, up: set<string>)
    requires ReachableBy(s, up) && HasLeader(s)
    ensures 2 * |up| > |s.nodes.Keys|
  {
    var run, steps :| IsRun(run, steps) && OnlyBy(steps, up) && run[|run| - 1] == s;
    var id :| id in s.nodes && s.nodes[id].role == Leader;
    RunKeepsInv(run, steps, |run| - 1);
    OnlyTheyVote(run, steps, up, |run| - 1);
    assert NodeOk(s, id) && VictoryOk(s, Victory(s.nodes[id].ps.term, id));
    SubsetSize(Supporters(s, s.nodes[id].ps.term, id), up);
    assert |s.nodes.Keys| == |s.nodes|;
  }

  /** With the other members down, some run elects a leader if and only if more than half of the members are up and
      there are at least two members. */
  lemma CanElectWithIff(members: set<string>, up: set<string>)
    requires "" !in members && up <= members
    ensures CanElectWith(members, up) <==> 2 * |up| > |members| && |members| >= 2
  {
    if CanElectWith(members, up) {
      var s :| ReachableBy(s, up) && s.nodes.Keys == members && HasLeader(s);
      LeaderHasPeers(s, up);
      LeaderNeedsMoreThanHalf(s, up);
    } else if 2 * |up| > |members| && |members| >= 2 {
      var c :| c in up;
      var s := ElectionStarts(members, up, c);
      s := ElectionProceeds(s, up, c, {});
      assert HasLeader(s);
    }
  }

  /** In every cluster that can elect, a deposed leader can send a heartbeat in a term it did not win, and that
      heartbeat can demote the candidate of that term. */
  lemma UnwonHeartbeatIsReachable(members: set<string>)
    requires "" !in members && |members| >= 2
    ensures exists s :: Reachable(s) && s.nodes.Keys == members && ShowsGap(s)
  {
    var c :| c in members;
    var s := ElectionStarts(members, members, c);
    s := ElectionProceeds(s, members, c, {});
    s := GapIsReachable(s, c);
  }

  lemma GapIsReachable(s: Cluster, c: string) returns (s': Cluster)
    requires Reachable(s) && JustWon(s, c)
    ensures Reachable(s') && s'.nodes.Keys == s.nodes.Keys && ShowsGap(s')
  {
    var p :| p in s.Peers(c) && s.nodes[p].ps == Saved(1, c);
    s' := SecondElectionStarts(s, c, p);
    s' := LeaderIsDeposed(s', c, p);
    s' := GapOpens(s', c, p);
  }

  /** Some candidate is about to be demoted by a heartbeat whose sender did not win the term it carries. */
  ghost predicate ShowsGap(s: Cluster) {
    exists id, beat ::
      && Enabled(s, ServeBeat(id, beat)) && Victory(beat.term, beat.leader) !in s.victories
      && s.nodes[id].role == Candidate && Apply(s, ServeBeat(id, beat)).nodes[id].role == Follower
  }

  lemma GapOpens(s: Cluster, c: string, p: string) returns (s': Cluster)
    requires Reachable(s) && s.WellFormed() && c in s.nodes && p in s.Peers(c) && s.loops[c] == AboutToBeat
    requires s.victories == {Victory(1, c)}
    requires s.nodes[c].ps.term == 2 && s.nodes[p].ps.term == 2 && s.nodes[p].role == Candidate
    ensures Reachable(s') && s'.nodes.Keys == s.nodes.Keys && ShowsGap(s')
  {
    ReachableStep(s, SendHeartbeats(c));
    s' := Apply(s, SendHeartbeats(c));
    assert s'.nodes.Keys == s.nodes.Keys;
    assert Enabled(s', ServeBeat(p, Beat(2, c)));
    assert Apply(s', ServeBeat(p, Beat(2, c))).nodes[p].role == Follower;
  }

  lemma SecondElectionStarts(s: Cluster, c: string, p: string) returns (s': Cluster)
    requires Reachable(s) && JustWon(s, c) && p in s.Peers(c) && s.nodes[p].ps == Saved(1, c)
    ensures Reachable(s') && s'.nodes == s.nodes[p := BecomeCandidate(p, s.nodes[p])]
    ensures s'.loops.Keys == s'.nodes.Keys && s'.loops[c] == AboutToBeat
    ensures s'.victories == s.victories && VoteRequest(2, p) in s'.requests
  {
    ReachableStep(s, TimerFires(p));
    var s1 := Apply(s, TimerFires(p));
    assert s1.nodes == s.nodes;
    ReachableStep(s1, StartElection(p));
    s' := Apply(s1, StartElection(p));
  }

  lemma LeaderIsDeposed(s: Cluster, c: string, p: string) returns (s': Cluster)
    requires Reachable(s) && s.WellFormed() && c in s.nodes && p in s.Peers(c)
    requires s.nodes[c].ps == Saved(1, c) && s.loops[c] == AboutToBeat && VoteRequest(2, p) in s.requests
    ensures Reachable(s') && s'.nodes.Keys == s.nodes.Keys && s'.loops == s.loops && s'.victories == s.victories
    ensures s'.nodes[c].ps == Saved(2, p) && s'.nodes[p] == s.nodes[p]
  {
    var ask := ServeVote(c, VoteRequest(2, p));
    assert Enabled(s, ask);
    ReachableStep(s, ask);
    s' := ApplyServeVote(s, c, VoteRequest(2, p));
    assert Apply(s, ask) == s';
    assert s'.loops == s.loops;
    assert s'.nodes.Keys == s.nodes.Keys;
  }
}
