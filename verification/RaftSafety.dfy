/** Election safety of the cluster in `RaftModel`, over every run. */
module RaftSafety {
  import opened Options
  import opened RaftModel

  // ----- the invariant -----

  /** The members that voted for `candidate` in `term`. */
  ghost function Supporters(s: Cluster, term: nat, candidate: string): set<string> {
    set v | v in s.nodes && Ballot(v, term, candidate) in s.ballots
  }

  ghost predicate NodeOk(s: Cluster, id: string)
    requires s.WellFormed() && id in s.nodes
  {
    var n, loop := s.nodes[id], s.loops[id];
    && n.ps == n.disk
    && (n.role == Leader ==> Victory(n.ps.term, id) in s.victories)
    && (loop.AboutToElect? ==> n.role != Leader)
    && (loop.AboutToBeat? && n.role != Leader ==> Victory(n.ps.term, id) !in s.victories)
    && (loop.Collecting? ==> ElectionOk(s, id, n, loop))
  }

  /** A running election never outlives its term while the node is still a candidate, and its count is covered
      by the node itself and the distinct peers heard so far that voted for it in that term. */
  ghost predicate ElectionOk(s: Cluster, id: string, n: Node, loop: Loop)
    requires loop.Collecting?
  {
    && n.role != Leader
    && loop.term <= n.ps.term
    && (n.role == Candidate ==> loop.term == n.ps.term)
    && loop.heard <= s.Peers(id)
    && loop.votes <= |Supporters(s, loop.term, id) * (loop.heard + {id})|
  }

  ghost predicate BallotOk(s: Cluster, b: Ballot) {
    && b.voter in s.nodes
    && b.candidate != ""
    && b.term <= s.nodes[b.voter].ps.term
    && (b.term == s.nodes[b.voter].ps.term ==> b.candidate == s.nodes[b.voter].ps.votedFor)
  }

  ghost predicate VictoryOk(s: Cluster, v: Victory) {
    && v.leader in s.nodes
    && v.term <= s.nodes[v.leader].ps.term
    && |Supporters(s, v.term, v.leader)| >= Majority(|s.nodes|)
  }

  ghost predicate SingleBallots(s: Cluster) {
    forall b <- s.ballots, c <- s.ballots :: b.voter == c.voter && b.term == c.term ==> b == c
  }

  ghost predicate Inv(s: Cluster) {
    && s.WellFormed()
    && (forall id <- s.nodes :: NodeOk(s, id))
    && (forall b <- s.ballots :: BallotOk(s, b))
    && SingleBallots(s)
    && (forall m <- s.votes :: m.reply.granted ==> Ballot(m.from, m.asked, m.to) in s.ballots)
    && (forall v <- s.victories :: VictoryOk(s, v))
  }

  // ----- cardinalities -----

  lemma {:induction false} SubsetSize<T>(a: set<T>, b: set<T>)
    requires a <= b
    ensures |a| <= |b|
  {
    assert b == a + (b - a);
  }

  /** Two majorities of one membership share a member. */
  lemma QuorumsMeet(members: set<string>, a: set<string>, b: set<string>)
    requires a <= members && b <= members
    requires |a| >= Majority(|members|) && |b| >= Majority(|members|)
    ensures exists v :: v in a && v in b
  {
    if a * b == {} {
      SubsetSize(a + b, members);
      assert false;
    } else {
      var v :| v in a * b;
      assert v in a && v in b;
    }
  }

  // ----- what no step undoes -----

  /** No step forgets a member, lowers a term, or withdraws a ballot, a vote message or a victory. */
  ghost predicate Grows(s: Cluster, s': Cluster) {
    && s'.WellFormed()
    && s'.nodes.Keys == s.nodes.Keys
    && (forall id <- s.nodes :: s.nodes[id].ps.term <= s'.nodes[id].ps.term)
    && s.votes <= s'.votes && s.ballots <= s'.ballots && s.victories <= s'.victories
  }

  lemma StepGrows(s: Cluster, step: Step)
    requires Enabled(s, step)
    requires forall id <- s.nodes :: s.nodes[id].ps == s.nodes[id].disk
    ensures Grows(s, Apply(s, step))
  {
    assert Apply(s, step).nodes.Keys == s.nodes.Keys;
    assert Apply(s, step).loops.Keys == s.loops.Keys;
  }

  /** What the other nodes rely on survives every step that only grows the cluster. */
  lemma BystanderOk(s: Cluster, s': Cluster, id: string)
    requires s.WellFormed() && id in s.nodes && NodeOk(s, id)
    requires Grows(s, s')
    requires s'.nodes[id] == s.nodes[id] && s'.loops[id] == s.loops[id]
    requires forall v <- s'.victories - s.victories :: v.leader != id
    ensures NodeOk(s', id)
  {
    var loop := s.loops[id];
    if loop.Collecting? { ElectionStaysOk(s, s', id, loop); }
  }

  lemma ElectionStaysOk(s: Cluster, s': Cluster, id: string, loop: Loop)
    requires s.WellFormed() && id in s.nodes && Grows(s, s')
    requires loop.Collecting? && ElectionOk(s, id, s.nodes[id], loop)
    requires s'.nodes[id].role != Leader
    requires s'.nodes[id].role == Candidate ==>
        s.nodes[id].role == Candidate && s'.nodes[id].ps.term == s.nodes[id].ps.term
    ensures ElectionOk(s', id, s'.nodes[id], loop)
  {
    SubsetSize(Supporters(s, loop.term, id) * (loop.heard + {id}), Supporters(s', loop.term, id) * (loop.heard + {id}));
  }

  lemma VictoriesStayOk(s: Cluster, s': Cluster)
    requires Grows(s, s') && forall v <- s.victories :: VictoryOk(s, v)
    ensures forall v <- s.victories :: VictoryOk(s', v)
  {
    forall v <- s.victories ensures VictoryOk(s', v) {
      SubsetSize(Supporters(s, v.term, v.leader), Supporters(s', v.term, v.leader));
    }
  }

  // ----- one lemma per kind of step -----

  /** A step of node `id` that casts no vote and wins nothing, and after which the node is no new candidate. */
  lemma QuietStep(s: Cluster, s': Cluster, id: string, n': Node, loop': Loop)
    requires Inv(s) && id in s.nodes
    requires Grows(s, s') && s'.nodes == s.nodes[id := n'] && s'.loops == s.loops[id := loop']
    requires s'.ballots == s.ballots && s'.victories == s.victories
    requires forall m <- s'.votes - s.votes :: !m.reply.granted
    requires n'.ps == n'.disk
    requires n'.ps.term == s.nodes[id].ps.term ==> n'.ps == s.nodes[id].ps || s.nodes[id].ps.votedFor == ""
    requires n'.role == Follower || (n' == s.nodes[id].(leaderId := n'.leaderId))
    requires loop' == s.loops[id] || loop' == Idle || (loop' == AboutToElect && n'.role != Leader) ||
             (loop' == AboutToBeat && n'.role == Leader)
    requires loop' == s.loops[id] && loop' == AboutToBeat && n'.role == Follower && n'.ps.term == s.nodes[id].ps.term
             ==> s.nodes[id].role != Leader
    ensures Inv(s')
  {
    VictoriesStayOk(s, s');
    forall x <- s'.nodes ensures NodeOk(s', x) {
      if x != id {
        BystanderOk(s, s', x);
      } else if loop'.Collecting? {
        ElectionStaysOk(s, s', id, loop');
      } else {
        assert NodeOk(s, id);
      }
    }
    forall b <- s'.ballots ensures BallotOk(s', b) { assert BallotOk(s, b); }
  }

  /** A node that votes, in a term in which it has not voted for anyone else, keeps every ballot consistent. */
  lemma VoteKeepsBallots(s: Cluster, s': Cluster, id: string, n': Node)
    requires Inv(s) && id in s.nodes && Grows(s, s')
    requires s'.nodes == s.nodes[id := n'] && n'.ps.votedFor != ""
    requires s'.ballots == s.ballots + {Ballot(id, n'.ps.term, n'.ps.votedFor)}
    requires n'.ps.term == s.nodes[id].ps.term ==> s.nodes[id].ps.votedFor in {"", n'.ps.votedFor}
    ensures forall b <- s'.ballots :: BallotOk(s', b)
    ensures SingleBallots(s')
  {
    forall b <- s'.ballots ensures BallotOk(s', b) { if b in s.ballots { assert BallotOk(s, b); } }
    forall b <- s'.ballots, c <- s'.ballots | b.voter == c.voter && b.term == c.term ensures b == c {
      if b in s.ballots { assert BallotOk(s, b); }
      if c in s.ballots { assert BallotOk(s, c); }
    }
  }

  /** Only the node that took the step needs a closer look. */
  lemma NodesStayOk(s: Cluster, s': Cluster, id: string)
    requires Inv(s) && id in s.nodes && Grows(s, s') && NodeOk(s', id)
    requires s'.nodes == s.nodes[id := s'.nodes[id]] && s'.loops == s.loops[id := s'.loops[id]]
    requires forall v <- s'.victories - s.victories :: v.leader == id
    ensures forall x <- s'.nodes :: NodeOk(s', x)
  {
    forall x <- s'.nodes ensures NodeOk(s', x) {
      if x != id { BystanderOk(s, s', x); }
    }
  }

  lemma StartElectionKeepsInv(s: Cluster, id: string)
    requires Inv(s) && Enabled(s, StartElection(id))
    ensures Inv(Apply(s, StartElection(id)))
  {
    var s' := Apply(s, StartElection(id));
    StepGrows(s, StartElection(id));
    VictoriesStayOk(s, s');
    assert NodeOk(s', id) by {
      assert Ballot(id, s'.nodes[id].ps.term, id) in s'.ballots;
      assert id in Supporters(s', s'.nodes[id].ps.term, id) * ({} + {id});
    }
    NodesStayOk(s, s', id);
    VoteKeepsBallots(s, s', id, s'.nodes[id]);
  }

  lemma VoterStaysOk(s: Cluster, s': Cluster, id: string, req: VoteRequest)
    requires Inv(s) && id in s.nodes && s' == ApplyServeVote(s, id, req) && Grows(s, s')
    ensures NodeOk(s', id)
  {
    assert NodeOk(s, id);
    if s.loops[id].Collecting? {
      ElectionStaysOk(s, s', id, s.loops[id]);
    } else if Victory(s'.nodes[id].ps.term, id) in s.victories {
      assert VictoryOk(s, Victory(s'.nodes[id].ps.term, id));
    }
  }

  lemma ServeVoteKeepsInv(s: Cluster, s': Cluster, id: string, req: VoteRequest)
    requires Inv(s) && id in s.nodes && s' == ApplyServeVote(s, id, req) && Grows(s, s') && req.candidate != ""
    ensures Inv(s')
  {
    VictoriesStayOk(s, s');
    VoterStaysOk(s, s', id, req);
    NodesStayOk(s, s', id);
    if Grants(s.nodes[id], req) {
      VoteKeepsBallots(s, s', id, s'.nodes[id]);
    } else {
      forall b <- s'.ballots ensures BallotOk(s', b) { assert BallotOk(s, b); }
    }
  }

  /** After one more result the count is covered by the voters heard. */
  ghost predicate Covered(s: Cluster, id: string, from: string, result: Option<VoteReply>)
    requires CanCollect(s, id, from, result)
  {
    var loop := s.loops[id];
    loop.votes + (if result.Some? && result.value.granted then 1 else 0)
    <= |Supporters(s, loop.term, id) * (loop.heard + {from} + {id})|
  }

  lemma CountCovers(s: Cluster, id: string, from: string, result: Option<VoteReply>)
    requires Inv(s) && CanCollect(s, id, from, result)
    ensures Covered(s, id, from, result)
  {
    var loop := s.loops[id];
    assert NodeOk(s, id);
    var before := Supporters(s, loop.term, id) * (loop.heard + {id});
    var after := Supporters(s, loop.term, id) * (loop.heard + {from} + {id});
    if result.Some? && result.value.granted {
      assert VoteMessage(from, id, loop.term, result.value) in s.votes;
      assert from in Supporters(s, loop.term, id);
      assert after == before + {from};
    } else {
      SubsetSize(before, after);
    }
  }

  /** An election that took one more result, whose count is still covered. */
  lemma OneMoreHeard(s: Cluster, s': Cluster, id: string, n: Node, loop: Loop, from: string, votes: nat)
    requires loop.Collecting? && ElectionOk(s, id, n, loop) && from in s.Peers(id)
    requires s'.nodes.Keys == s.nodes.Keys && s'.ballots == s.ballots
    requires votes <= |Supporters(s, loop.term, id) * (loop.heard + {from} + {id})|
    ensures ElectionOk(s', id, n, Collecting(loop.term, votes, loop.heard + {from}))
  {
    assert Supporters(s', loop.term, id) == Supporters(s, loop.term, id);
  }

  lemma CollectorStaysOk(s: Cluster, s': Cluster, id: string, from: string, result: Option<VoteReply>)
    requires CanCollect(s, id, from, result) && NodeOk(s, id) && Covered(s, id, from, result)
    requires s'.WellFormed() && s'.nodes.Keys == s.nodes.Keys && s'.ballots == s.ballots
    requires (s'.nodes[id], s'.loops[id]) == TakeResult(id, s.nodes[id], s.loops[id], from, result, s.Peers(id))
    requires s'.loops[id].AboutToBeat? ==> Victory(s'.nodes[id].ps.term, id) in s'.victories
    ensures NodeOk(s', id)
  {
    if s'.loops[id].Collecting? {
      OneMoreHeard(s, s', id, s.nodes[id], s.loops[id], from, s'.loops[id].votes);
    }
  }

  lemma WinnerHasMajority(s: Cluster, s': Cluster, id: string, from: string, result: Option<VoteReply>)
    requires Inv(s) && CanCollect(s, id, from, result)
    requires s' == ApplyCollectVote(s, id, from, result) && Grows(s, s') && s'.loops[id].AboutToBeat?
    ensures VictoryOk(s', Victory(s'.nodes[id].ps.term, id))
  {
    var loop := s.loops[id];
    assert loop.term == s'.nodes[id].ps.term by { assert NodeOk(s, id); }
    assert Supporters(s', loop.term, id) == Supporters(s, loop.term, id);
    assert |Supporters(s, loop.term, id)| >= Majority(|s.Peers(id)| + 1) by {
      CountCovers(s, id, from, result);
      SubsetSize(Supporters(s, loop.term, id) * (loop.heard + {from} + {id}), Supporters(s, loop.term, id));
    }
    assert s.nodes.Keys == s.Peers(id) + {id};
    assert |s'.nodes.Keys| == |s'.nodes|;
  }

  lemma CollectShape(s: Cluster, id: string, from: string, result: Option<VoteReply>)
    requires CanCollect(s, id, from, result)
    ensures var s' := ApplyCollectVote(s, id, from, result);
            && s'.nodes == s.nodes[id := s'.nodes[id]] && s'.loops == s.loops[id := s'.loops[id]]
            && (s'.nodes[id], s'.loops[id]) == TakeResult(id, s.nodes[id], s.loops[id], from, result, s.Peers(id))
            && s'.ballots == s.ballots && s'.votes == s.votes
            && s'.victories
               == s.victories + (if s'.loops[id].AboutToBeat? then {Victory(s'.nodes[id].ps.term, id)} else {})
            && (s'.nodes[id].ps.term == s.nodes[id].ps.term ==> s'.nodes[id].ps == s.nodes[id].ps)
  {
  }

  lemma CollectVoteKeepsInv(s: Cluster, s': Cluster, id: string, from: string, result: Option<VoteReply>)
    requires Inv(s) && CanCollect(s, id, from, result)
    requires s' == ApplyCollectVote(s, id, from, result) && Grows(s, s')
    ensures Inv(s')
  {
    CollectShape(s, id, from, result);
    CountCovers(s, id, from, result);
    CollectorStaysOk(s, s', id, from, result);
    if s'.loops[id].AboutToBeat? { WinnerHasMajority(s, s', id, from, result); }
    VictoriesStayOk(s, s');
    NodesStayOk(s, s', id);
    forall b <- s'.ballots ensures BallotOk(s', b) { assert BallotOk(s, b); }
  }

  lemma ServeBeatKeepsInv(s: Cluster, id: string, beat: Beat)
    requires Inv(s) && Enabled(s, ServeBeat(id, beat))
    ensures Inv(Apply(s, ServeBeat(id, beat)))
  {
    var s' := Apply(s, ServeBeat(id, beat));
    StepGrows(s, ServeBeat(id, beat));
    assert NodeOk(s, id);
    QuietStep(s, s', id, s'.nodes[id], s.loops[id]);
  }

  /** Whichever saves a crash leaves behind, the term has not gone back, and within the term no vote has changed. */
  lemma CrashKeepsVote(n: Node, req: VoteRequest, saves: nat)
    requires n.ps == n.disk && saves <= |VoteSaves(n, req)|
    ensures var saved := SavedAfter(n, req, saves);
            n.ps.term <= saved.term && (saved.term == n.ps.term ==> saved == n.ps || n.ps.votedFor == "")
  {
  }

  lemma CrashKeepsInv(s: Cluster, s': Cluster, id: string, saved: Saved)
    requires Inv(s) && id in s.nodes && s' == s.Put(id, Reload(saved), Idle) && Grows(s, s')
    requires saved.term == s.nodes[id].ps.term ==> saved == s.nodes[id].ps || s.nodes[id].ps.votedFor == ""
    ensures Inv(s')
  {
    QuietStep(s, s', id, Reload(saved), Idle);
  }

  lemma StepKeepsInv(s: Cluster, step: Step)
    requires Inv(s) && Enabled(s, step)
    ensures Inv(Apply(s, step))
  {
    StepGrows(s, step);
    match step
    case StartElection(id) => StartElectionKeepsInv(s, id);
    case CollectVote(id, from, result) => CollectVoteKeepsInv(s, Apply(s, step), id, from, result);
    case ServeVote(id, req) => ServeVoteKeepsInv(s, Apply(s, step), id, req);
    case ServeBeat(id, beat) => ServeBeatKeepsInv(s, id, beat);
    case CrashInVote(id, req, saves) =>
      assert NodeOk(s, id);
      CrashKeepsVote(s.nodes[id], req, saves);
      CrashKeepsInv(s, Apply(s, step), id, SavedAfter(s.nodes[id], req, saves));
    case Restart(id) =>
      assert NodeOk(s, id);
      CrashKeepsInv(s, Apply(s, step), id, s.nodes[id].disk);
    case _ =>
      var s' := Apply(s, step);
      StepGrows(s, step);
      assert NodeOk(s, step.id);
      QuietStep(s, s', step.id, s'.nodes[step.id], s'.loops[step.id]);
  }

  // ----- theorems over every run -----

  lemma {:induction false} RunKeepsInv(run: seq<Cluster>, steps: seq<Step>, k: nat)
    requires IsRun(run, steps) && k < |run|
    ensures Inv(run[k])
  {
    if k > 0 {
      RunKeepsInv(run, steps, k - 1);
      assert Moves(run, steps, k - 1);
      StepKeepsInv(run[k - 1], steps[k - 1]);
    }
  }

  lemma InvStepGrows(s: Cluster, step: Step)
    requires Inv(s) && Enabled(s, step)
    ensures Grows(s, Apply(s, step))
  {
    assert forall id <- s.nodes :: NodeOk(s, id);
    StepGrows(s, step);
  }

  lemma {:induction false} RunGrows(run: seq<Cluster>, steps: seq<Step>, a: nat, b: nat)
    requires IsRun(run, steps) && a <= b < |run|
    ensures Grows(run[a], run[b])
  {
    RunKeepsInv(run, steps, b);
    if a < b {
      RunGrows(run, steps, a, b - 1);
      RunKeepsInv(run, steps, b - 1);
      assert Moves(run, steps, b - 1);
      InvStepGrows(run[b - 1], steps[b - 1]);
      GrowsOnward(run[a], run[b - 1], run[b]);
    }
  }

  lemma GrowsOnward(s: Cluster, s': Cluster, s'': Cluster)
    requires Grows(s, s') && Grows(s', s'')
    ensures Grows(s, s'')
  {
    forall id <- s.nodes ensures s.nodes[id].ps.term <= s''.nodes[id].ps.term {
      assert s.nodes[id].ps.term <= s'.nodes[id].ps.term;
    }
  }

  /** At most one node ever becomes leader in a term: whoever leads in term `t` at any two moments of a run is one
      node. */
  lemma ElectionSafety(run: seq<Cluster>, steps: seq<Step>, a: nat, b: nat, l: string, m: string)
    requires IsRun(run, steps) && a < |run| && b < |run|
    requires l in run[a].nodes && run[a].nodes[l].role == Leader
    requires m in run[b].nodes && run[b].nodes[m].role == Leader
    requires run[a].nodes[l].ps.term == run[b].nodes[m].ps.term
    ensures l == m
  {
    var last := |run| - 1;
    RunKeepsInv(run, steps, a);
    RunKeepsInv(run, steps, b);
    RunKeepsInv(run, steps, last);
    RunGrows(run, steps, a, last);
    RunGrows(run, steps, b, last);
    assert NodeOk(run[a], l) && NodeOk(run[b], m);
    var term := run[a].nodes[l].ps.term;
    OneVictoryPerTerm(run[last], Victory(term, l), Victory(term, m));
  }

  lemma OneVictoryPerTerm(s: Cluster, v: Victory, w: Victory)
    requires Inv(s) && v in s.victories && w in s.victories && v.term == w.term
    ensures v == w
  {
    assert VictoryOk(s, v) && VictoryOk(s, w);
    QuorumsMeet(s.nodes.Keys, Supporters(s, v.term, v.leader), Supporters(s, w.term, w.leader));
    var x :| x in Supporters(s, v.term, v.leader) && x in Supporters(s, w.term, w.leader);
    assert Ballot(x, v.term, v.leader) == Ballot(x, w.term, w.leader);
  }

  /** A node's term never goes back, restarts and crashes between two saves included. */
  lemma TermsNeverDecrease(run: seq<Cluster>, steps: seq<Step>, a: nat, b: nat, id: string)
    requires IsRun(run, steps) && a <= b < |run| && id in run[a].nodes
    ensures id in run[b].nodes && run[a].nodes[id].ps.term <= run[b].nodes[id].ps.term
  {
    RunGrows(run, steps, a, b);
  }

  /** A node never grants its vote to two candidates in one term, whenever in the run it grants. */
  lemma OneVotePerTerm(run: seq<Cluster>, steps: seq<Step>, a: nat, b: nat, x: VoteMessage, y: VoteMessage)
    requires IsRun(run, steps) && a < |run| && b < |run|
    requires x in run[a].votes && y in run[b].votes && x.reply.granted && y.reply.granted
    requires x.from == y.from && x.asked == y.asked
    ensures x.to == y.to
  {
    var last := |run| - 1;
    RunKeepsInv(run, steps, last);
    RunGrows(run, steps, a, last);
    RunGrows(run, steps, b, last);
    assert Ballot(x.from, x.asked, x.to) == Ballot(y.from, y.asked, y.to);
  }

  /** Although the vote loop never re-checks the term: a node still a candidate is still in the election's term, and
      its count is at most itself plus the distinct peers heard that voted for it in that term. */
  lemma ElectionCountIsSound(run: seq<Cluster>, steps: seq<Step>, k: nat, id: string)
    requires IsRun(run, steps) && k < |run| && id in run[k].nodes
    requires id in run[k].loops && run[k].loops[id].Collecting?
    ensures var s, loop := run[k], run[k].loops[id];
            && (s.nodes[id].role == Candidate ==> s.nodes[id].ps.term == loop.term)
            && loop.votes <= 1 + |set p | p in loop.heard && Ballot(p, loop.term, id) in s.ballots|
  {
    RunKeepsInv(run, steps, k);
    var s, loop := run[k], run[k].loops[id];
    assert NodeOk(s, id);
    var granters := set p | p in loop.heard && Ballot(p, loop.term, id) in s.ballots;
    SubsetSize(Supporters(s, loop.term, id) * (loop.heard + {id}), granters + {id});
  }

  /** A heartbeat, whoever sent it and whatever term it carries, adds no vote and no leader, changes nobody but its
      receiver, and leaves a leader of its own term (or a later one) in office. */
  lemma HeartbeatOnlyDemotes(s: Cluster, id: string, beat: Beat)
    requires Inv(s) && Enabled(s, ServeBeat(id, beat))
    ensures var s' := Apply(s, ServeBeat(id, beat));
            && s'.ballots == s.ballots && s'.votes == s.votes && s'.victories == s.victories
            && s'.nodes - {id} == s.nodes - {id} && s'.loops == s.loops
            && (forall x <- s'.nodes :: s'.nodes[x].role == Leader ==>
                 s.nodes[x].role == Leader && s.nodes[x].ps == s'.nodes[x].ps)
            && (s.nodes[id].role == Leader && beat.term <= s.nodes[id].ps.term ==>
                  s'.nodes[id].role == Leader && s'.nodes[id].ps == s.nodes[id].ps)
  {
    var s' := Apply(s, ServeBeat(id, beat));
    assert s'.loops == s.loops;
    assert s'.nodes - {id} == s.nodes - {id};
  }

  /** The term a heartbeat carries was won by its sender exactly if the sender still leads when it reads the term;
      the leader check of the run loop, one lock section earlier, does not ensure that. */
  lemma HeartbeatTermIsWonIff(run: seq<Cluster>, steps: seq<Step>, k: nat, id: string)
    requires IsRun(run, steps) && k < |run| && Enabled(run[k], SendHeartbeats(id))
    ensures Victory(run[k].nodes[id].ps.term, id) in run[k].victories <==> run[k].nodes[id].role == Leader
  {
    RunKeepsInv(run, steps, k);
    assert NodeOk(run[k], id);
  }
}
