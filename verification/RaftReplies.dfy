/** What a node answers to vote requests and heartbeats, and what these answers do to a run. */
module RaftReplies {
  import opened Options
  import opened RaftModel
  import opened RaftSafety

  // ----- votes -----

  /** A request is granted if and only if it is of a later term, or of the node's own term in which the node has voted
      for nobody else.  A node is afterwards in the later of the two terms, and a grant is its saved vote. */
  lemma VoteIsGrantedIff(n: Node, req: VoteRequest)
    requires n.ps == n.disk
    ensures var (n', reply) := HandleVote(n, req);
            && (reply.granted <==>
                  || req.term > n.ps.term || (req.term == n.ps.term && n.ps.votedFor in {"", req.candidate}))
            && reply.term == n'.ps.term && n'.ps.term == (if req.term > n.ps.term then req.term else n.ps.term)
            && n'.ps.votedFor == (if reply.granted then req.candidate else n.ps.votedFor)
            && n'.disk == n'.ps && n'.role == (if req.term > n.ps.term then Follower else n.role)
  {
  }

  /** Once a node has granted a request, then for as long as it stays in that term, through crashes and restarts, it
      grants the same candidate again and refuses every other; in a later term it refuses all requests of that one. */
  lemma GrantStands(run: seq<Cluster>, steps: seq<Step>, a: nat, b: nat, m: VoteMessage, candidate: string)
    requires IsRun(run, steps) && a <= b < |run| && m in run[a].votes && m.reply.granted
    ensures m.from in run[b].nodes && run[b].nodes[m.from].ps.term >= m.asked
    ensures var n := run[b].nodes[m.from];
            HandleVote(n, VoteRequest(m.asked, candidate)).1.granted <==> n.ps.term == m.asked && candidate == m.to
  {
    RunKeepsInv(run, steps, b);
    RunGrows(run, steps, a, b);
    var s := run[b];
    assert BallotOk(s, Ballot(m.from, m.asked, m.to));
    assert NodeOk(s, m.from);
    VoteIsGrantedIff(s.nodes[m.from], VoteRequest(m.asked, candidate));
  }

  // ----- heartbeats -----

  /** A heartbeat of an earlier term changes nothing and is answered with the node's later term.  Any other is accepted:
      afterwards the node is in its term, follows its sender and is no candidate. */
  lemma BeatIsAcceptedIff(n: Node, beat: Beat)
    ensures var (n', reply) := HandleBeat(n, beat);
            && (reply.success <==> beat.term >= n.ps.term)
            && (!reply.success ==> n' == n && reply.term == n.ps.term && reply.term > beat.term)
            && (reply.success ==>
                  && n'.ps.term == beat.term && reply.term == beat.term && n'.leaderId == beat.leader
                  && (n'.role == Leader <==> n.role == Leader && n.ps.term == beat.term) && n'.role != Candidate)
  {
  }

  /** A sender still in the term of its heartbeat that takes the reply steps down if and only if the heartbeat was
      stale: then it is a follower in the later term of the node that refused it, and otherwise it stays as it is. */
  lemma ReplyDeposesIff(run: seq<Cluster>, steps: seq<Step>, k: nat, j: nat, id: string, beat: Beat, reply: BeatReply)
    requires IsRun(run, steps) && k < j < |steps| && steps[k] == ServeBeat(id, beat) && id in run[k].nodes
    requires reply == HandleBeat(run[k].nodes[id], beat).1 && steps[j] == TakeBeatReply(beat.leader, reply)
    requires beat.leader in run[j].nodes && run[j].nodes[beat.leader].ps.term == beat.term
    ensures reply in run[k + 1].beatReplies && beat.leader in run[j + 1].nodes
    ensures var sender, sender' := run[j].nodes[beat.leader], run[j + 1].nodes[beat.leader];
            if beat.term < run[k].nodes[id].ps.term
            then sender'.role == Follower && sender'.ps == Saved(run[k].nodes[id].ps.term, "")
            else sender' == sender
  {
    assert Moves(run, steps, k) && Moves(run, steps, j);
    BeatIsAcceptedIff(run[k].nodes[id], beat);
  }

  // ----- whom a node follows -----

  /** `x` won a term not later than `term`. */
  ghost predicate HasWonBy(victories: set<Victory>, x: string, term: nat) {
    exists v :: v in victories && v.leader == x && v.term <= term
  }

  /** Whom the node recorded as leader, and the node itself if it is about to send heartbeats, has won such a term. */
  ghost predicate Follows(victories: set<Victory>, id: string, n: Node, loop: Loop) {
    && (n.leaderId != "" ==> HasWonBy(victories, n.leaderId, n.ps.term))
    && (loop.AboutToBeat? ==> HasWonBy(victories, id, n.ps.term))
  }

  ghost predicate FollowsWinners(s: Cluster) {
    && s.WellFormed() && (forall id <- s.nodes :: Follows(s.victories, id, s.nodes[id], s.loops[id]))
    && (forall b <- s.beats :: HasWonBy(s.victories, b.leader, b.term))
  }

  lemma WinsLast(before: set<Victory>, after: set<Victory>, x: string, term: nat, term': nat)
    requires HasWonBy(before, x, term) && before <= after && term <= term'
    ensures HasWonBy(after, x, term')
  {
    var v :| v in before && v.leader == x && v.term <= term;
    assert v in after;
  }

  /** A node that records nobody new and is not newly about to send heartbeats, unless it leads. */
  lemma StillFollows(before: set<Victory>, after: set<Victory>, id: string, n: Node, loop: Loop, n': Node, loop': Loop)
    requires Follows(before, id, n, loop) && before <= after && n.ps.term <= n'.ps.term
    requires n'.leaderId in {"", n.leaderId}
    requires loop'.AboutToBeat? ==> loop.AboutToBeat? || Victory(n.ps.term, id) in before
    ensures Follows(after, id, n', loop')
  {
    if n'.leaderId != "" { WinsLast(before, after, n.leaderId, n.ps.term, n'.ps.term); }
    if loop'.AboutToBeat? {
      assert loop.AboutToBeat? || (Victory(n.ps.term, id) in before && HasWonBy(before, id, n.ps.term));
      WinsLast(before, after, id, n.ps.term, n'.ps.term);
    }
  }

  lemma WinnerFollows(s: Cluster, id: string, from: string, result: Option<VoteReply>)
    requires CanCollect(s, id, from, result) && Follows(s.victories, id, s.nodes[id], s.loops[id])
    ensures var s' := ApplyCollectVote(s, id, from, result); Follows(s'.victories, id, s'.nodes[id], s'.loops[id])
  {
    var s' := ApplyCollectVote(s, id, from, result);
    if s'.loops[id].AboutToBeat? {
      assert Victory(s'.nodes[id].ps.term, id) in s'.victories;
    } else {
      StillFollows(s.victories, s'.victories, id, s.nodes[id], s.loops[id], s'.nodes[id], s'.loops[id]);
    }
  }

  lemma ServedBeatFollows(victories: set<Victory>, id: string, n: Node, loop: Loop, beat: Beat)
    requires Follows(victories, id, n, loop) && HasWonBy(victories, beat.leader, beat.term)
    ensures Follows(victories, id, HandleBeat(n, beat).0, loop)
  {
    BeatIsAcceptedIff(n, beat);
    if loop.AboutToBeat? { WinsLast(victories, victories, id, n.ps.term, HandleBeat(n, beat).0.ps.term); }
  }

  lemma StepperFollows(s: Cluster, s': Cluster, step: Step)
    requires Inv(s) && Enabled(s, step) && s' == Apply(s, step) && Grows(s, s') && FollowsWinners(s)
    ensures Follows(s'.victories, step.id, s'.nodes[step.id], s'.loops[step.id])
  {
    var id := step.id;
    match step
    case ServeBeat(_, beat) => ServedBeatFollows(s.victories, id, s.nodes[id], s.loops[id], beat);
    case CollectVote(_, from, result) => WinnerFollows(s, id, from, result);
    case _ =>
      assert NodeOk(s, id);
      RecordsNobodyNew(s, step);
      StillFollows(s.victories, s'.victories, id, s.nodes[id], s.loops[id], s'.nodes[id], s'.loops[id]);
  }

  lemma RecordsNobodyNew(s: Cluster, step: Step)
    requires Enabled(s, step) && !step.ServeBeat? && !step.CollectVote?
    ensures var s', id := Apply(s, step), step.id;
            && id in s'.nodes && id in s'.loops && s'.nodes[id].leaderId in {"", s.nodes[id].leaderId}
            && (s'.loops[id].AboutToBeat? ==> s.loops[id].AboutToBeat? || s.nodes[id].role == Leader)
  {
  }

  lemma OthersKeepStill(s: Cluster, step: Step, id: string)
    requires Enabled(s, step) && id in s.nodes && id != step.id
    ensures var s' := Apply(s, step);
            id in s'.nodes && id in s'.loops && s'.nodes[id] == s.nodes[id] && s'.loops[id] == s.loops[id]
  {
  }

  lemma BeatsAreWinners(s: Cluster, s': Cluster, step: Step, b: Beat)
    requires Enabled(s, step) && s' == Apply(s, step) && Grows(s, s') && FollowsWinners(s) && b in s'.beats
    ensures HasWonBy(s'.victories, b.leader, b.term)
  {
    assert b in s.beats || (step.SendHeartbeats? && b == Beat(s.nodes[step.id].ps.term, step.id));
    WinsLast(s.victories, s'.victories, b.leader, b.term, b.term);
  }

  lemma StepFollowsWinners(s: Cluster, step: Step)
    requires Inv(s) && Enabled(s, step) && FollowsWinners(s)
    ensures FollowsWinners(Apply(s, step))
  {
    var s' := Apply(s, step);
    InvStepGrows(s, step);
    forall id <- s'.nodes ensures Follows(s'.victories, id, s'.nodes[id], s'.loops[id]) {
      if id == step.id {
        StepperFollows(s, s', step);
      } else {
        OthersKeepStill(s, step, id);
        StillFollows(s.victories, s'.victories, id, s.nodes[id], s.loops[id], s'.nodes[id], s'.loops[id]);
      }
    }
    forall b <- s'.beats ensures HasWonBy(s'.victories, b.leader, b.term) { BeatsAreWinners(s, s', step, b); }
  }

  lemma {:induction false} RunFollowsWinners(run: seq<Cluster>, steps: seq<Step>, k: nat)
    requires IsRun(run, steps) && k < |run|
    ensures FollowsWinners(run[k])
  {
    if k > 0 {
      RunFollowsWinners(run, steps, k - 1);
      OneMoreFollowsWinners(run, steps, k);
    }
  }

  lemma OneMoreFollowsWinners(run: seq<Cluster>, steps: seq<Step>, k: nat)
    requires IsRun(run, steps) && 0 < k < |run| && FollowsWinners(run[k - 1])
    ensures FollowsWinners(run[k])
  {
    RunKeepsInv(run, steps, k - 1);
    assert Moves(run, steps, k - 1);
    StepFollowsWinners(run[k - 1], steps[k - 1]);
  }

  /** In every run, whoever is recorded as leader has won a term not later than that of the node that recorded it. */
  lemma RecordedLeaderHasWon(run: seq<Cluster>, steps: seq<Step>, k: nat, id: string)
    requires IsRun(run, steps) && k < |run| && id in run[k].nodes && run[k].nodes[id].leaderId != ""
    ensures HasWonBy(run[k].victories, run[k].nodes[id].leaderId, run[k].nodes[id].ps.term)
  {
    RunFollowsWinners(run, steps, k);
  }
}
