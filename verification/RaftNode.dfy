/** The node object of `internal/raft`: each method that holds the lock refines the lock section of `RaftModel`. */
module RaftNode {
  import opened Options
  import opened RaftModel

  /** The state file of one node; it outlives the node object.  `writes` records what was ever written, in order. */
  class StateFile {
    var contents: Option<Saved>
    ghost var writes: seq<Saved>

    constructor ()
      ensures contents == None && writes == []
    {
      contents := None;
      writes := [];
    }

    ghost function OnDisk(): Saved
      reads this
    {
      if contents.Some? then contents.value else Saved(0, "")
    }
  }

  class RaftNode {
    const id: string
    const peers: seq<string>
    const file: StateFile
    var state: Role
    var leaderId: string
    var currentTerm: nat
    var votedFor: string

    ghost function View(): Node
      reads this, file
    {
      Node(state, leaderId, Saved(currentTerm, votedFor), file.OnDisk())
    }

    ghost function PeerSet(): set<string> { set p | p in peers }

    /** NewRaftNode: a first start and every restart; a missing file stands for term 0 and no vote. */
    constructor (id: string, peers: seq<string>, file: StateFile)
      ensures this.id == id && this.peers == peers && this.file == file
      ensures View() == Reload(file.OnDisk()) && state == Follower && leaderId == ""
      ensures Saved(currentTerm, votedFor) == if file.contents.Some? then file.contents.value else Saved(0, "")
    {
      this.id, this.peers, this.file := id, peers, file;
      state, leaderId := Follower, "";
      if file.contents.Some? {
        currentTerm, votedFor := file.contents.value.term, file.contents.value.votedFor;
      } else {
        currentTerm, votedFor := 0, "";
      }
    }

    method WriteState()
      modifies file
      ensures View() == SaveState(old(View()))
      ensures file.writes == old(file.writes) + [old(View()).ps]
    {
      file.contents := Some(Saved(currentTerm, votedFor));
      file.writes := file.writes + [Saved(currentTerm, votedFor)];
    }

    method StepDown(term: nat)
      modifies this, file
      ensures View() == BecomeFollower(old(View()), term) && state == Follower && leaderId == old(leaderId)
      ensures term > old(currentTerm) ==> currentTerm == term && votedFor == ""
      ensures term <= old(currentTerm) ==> currentTerm == old(currentTerm) && votedFor == old(votedFor)
      ensures file.writes == old(file.writes) + if term > old(currentTerm) then [Saved(term, "")] else []
    {
      state := Follower;
      if term > currentTerm {
        currentTerm, votedFor := term, "";
        WriteState();
      }
    }

    method Stand()
      modifies this, file
      ensures View() == BecomeCandidate(id, old(View())) && state == Candidate && leaderId == old(leaderId)
      ensures currentTerm == old(currentTerm) + 1 && votedFor == id
      ensures file.writes == old(file.writes) + [Saved(old(currentTerm) + 1, id)]
    {
      state := Candidate;
      currentTerm, votedFor := currentTerm + 1, id;
      WriteState();
    }

    method Lead()
      modifies this
      ensures View() == BecomeLeader(id, old(View())) && state == Leader && leaderId == id
      ensures currentTerm == old(currentTerm) && votedFor == old(votedFor)
    {
      state, leaderId := Leader, id;
    }

    /** The new node and the reply are those of the lock section; the file went through exactly the saves after each
        of which a crash is possible. */
    method HandleRequestVote(req: VoteRequest) returns (reply: VoteReply)
      modifies this, file
      ensures (View(), reply) == HandleVote(old(View()), req)
      ensures file.writes == old(file.writes) + VoteSaves(old(View()), req)
      ensures reply.granted <==>
                || req.term > old(currentTerm)
                || (req.term == old(currentTerm) && old(votedFor) in {"", req.candidate})
      ensures reply.granted ==> votedFor == req.candidate
      ensures reply.term == currentTerm == if req.term > old(currentTerm) then req.term else old(currentTerm)
      ensures leaderId == old(leaderId) && (req.term > old(currentTerm) ==> state == Follower)
      ensures req.term <= old(currentTerm) ==> state == old(state) && (!reply.granted ==> votedFor == old(votedFor))
    {
      if req.term < currentTerm {
        return VoteReply(currentTerm, false);
      }
      if req.term > currentTerm {
        StepDown(req.term);
      }
      var alreadyVoted := votedFor != "" && votedFor != req.candidate;
      if alreadyVoted {
        return VoteReply(currentTerm, false);
      }
      votedFor := req.candidate;
      WriteState();
      reply := VoteReply(currentTerm, true);
    }

    /** A heartbeat of an earlier term changes nothing and is answered with the node's own, later term.  Any other is
        accepted: the node is in its term, follows its sender and is no candidate. */
    method HandleAppendEntries(beat: Beat) returns (reply: BeatReply)
      modifies this, file
      ensures (View(), reply) == HandleBeat(old(View()), beat)
      ensures beat.term < old(currentTerm) ==> View() == old(View()) && reply == BeatReply(old(currentTerm), false)
      ensures beat.term >= old(currentTerm) ==>
                && currentTerm == beat.term && leaderId == beat.leader && reply == BeatReply(beat.term, true)
                && (state == Leader <==> beat.term == old(currentTerm) && old(state) == Leader) && state != Candidate
                && votedFor == if beat.term == old(currentTerm) then old(votedFor) else ""
      ensures file.writes == old(file.writes) + if beat.term > old(currentTerm) then [Saved(beat.term, "")] else []
    {
      if beat.term < currentTerm {
        return BeatReply(currentTerm, false);
      }
      if beat.term > currentTerm {
        StepDown(beat.term);
      }
      if state == Candidate {
        state := Follower;
      }
      leaderId := beat.leader;
      reply := BeatReply(currentTerm, true);
    }

    /** What a goroutine of sendHeartbeats does with one peer's reply. */
    method TakeHeartbeatReply(reply: BeatReply)
      modifies this, file
      ensures View() == if reply.term > old(currentTerm) then BecomeFollower(old(View()), reply.term) else old(View())
      ensures reply.term > old(currentTerm) ==> state == Follower && currentTerm == reply.term && votedFor == ""
    {
      if reply.term > currentTerm {
        StepDown(reply.term);
      }
    }

    /** The lock section of one iteration of the vote loop, with the count so far in `loop`. */
    method TakeVote(loop: Loop, from: string, result: Option<VoteReply>) returns (loop': Loop)
      requires loop.Collecting? && |PeerSet()| == |peers|
      modifies this, file
      ensures (View(), loop') == TakeResult(id, old(View()), loop, from, result, PeerSet())
      ensures var granted := result.Some? && result.value.granted && result.value.term <= old(currentTerm);
              && (loop' == AboutToBeat <==> granted && old(state) == Candidate && 2 * (loop.votes + 1) > |peers| + 1)
              && (loop'.Collecting? ==> loop'.votes == loop.votes + if granted then 1 else 0)
      ensures result.Some? && result.value.term > old(currentTerm) ==>
                state == Follower && currentTerm == result.value.term && votedFor == "" && loop' == Idle
    {
      var reply := if result.Some? then result.value else VoteReply(0, false);
      if reply.term > currentTerm {
        StepDown(reply.term);
        return Idle;
      }
      var votes := loop.votes;
      if reply.granted {
        votes := votes + 1;
        if votes >= Majority(|peers| + 1) && state == Candidate {
          Lead();
          return AboutToBeat;
        }
      }
      loop' := VoteLoop(loop.term, votes, loop.heard + {from}, set p | p in peers);
    }

    /** startElection when no other lock section runs in between: `answers` holds each peer's result, in the order of
        arrival.  The node wins exactly if the grants that arrive before a higher term make a majority with its own;
        if it loses, it follows in the first higher term that arrived, and is still a candidate if none did. */
    method StartElection(answers: seq<Answer>) returns (won: bool)
      requires AnswersOf(answers, PeerSet()) && |answers| == |peers|
      modifies this, file
      ensures won <==> answers != [] && 2 * (1 + GrantsInTime(answers, old(currentTerm) + 1)) > |peers| + 1
      ensures won ==> View() == BecomeLeader(id, BecomeCandidate(id, old(View())))
      ensures !won ==> View() == Defeated(BecomeCandidate(id, old(View())), answers)
    {
      Stand();
      won := CollectVotes(answers);
    }

    /** The vote loop of startElection. */
    method CollectVotes(answers: seq<Answer>) returns (won: bool)
      requires state == Candidate && AnswersOf(answers, PeerSet()) && |answers| == |peers|
      modifies this, file
      ensures won <==> answers != [] && 2 * (1 + GrantsInTime(answers, old(currentTerm))) > |peers| + 1
      ensures won ==> View() == BecomeLeader(id, old(View()))
      ensures !won ==> View() == Defeated(old(View()), answers)
    {
      ghost var candidate, all, votes := View(), PeerSet(), 1;
      AnswersCountPeers(answers, all);
      LoopBegins(answers, currentTerm, all);
      var loop := VoteLoop(currentTerm, 1, {}, set p | p in peers);
      for i := 0 to |peers|
        invariant View() == candidate && Underway(loop, answers, candidate.ps.term, i, votes, all)
      {
        OneTurn(id, candidate, loop, answers, i, votes, all);
        loop := TakeVote(loop, answers[i].from, answers[i].reply);
        if loop == AboutToBeat {
          return true;
        }
        if state == Follower {
          return false;
        }
        votes := votes + if answers[i].Grants() then 1 else 0;
      }
      LoopEnds(loop, answers, currentTerm, votes, all);
      return false;
    }
  }

  /** The result of one peer's RequestVote call, as the vote loop receives it; no reply when the call failed. */
  datatype Answer = Answer(from: string, reply: Option<VoteReply>) {
    predicate Grants() { reply.Some? && reply.value.granted }
    predicate Supersedes(term: nat) { reply.Some? && reply.value.term > term }
  }

  ghost function Heard(answers: seq<Answer>): set<string> { set a <- answers :: a.from }

  /** One answer per peer, in any order. */
  ghost predicate AnswersOf(answers: seq<Answer>, peers: set<string>) {
    Heard(answers) == peers && forall i, j :: 0 <= i < j < |answers| ==> answers[i].from != answers[j].from
  }

  /** The grants that arrive before an answer from a later term. */
  function GrantsInTime(answers: seq<Answer>, term: nat): nat {
    if answers == [] || answers[0].Supersedes(term) then 0
    else (if answers[0].Grants() then 1 else 0) + GrantsInTime(answers[1..], term)
  }

  /** The grants that arrive in time, one answer per peer, make a majority with the node's own vote. */
  predicate Wins(answers: seq<Answer>, term: nat) {
    answers != [] && 2 * (1 + GrantsInTime(answers, term)) > |answers| + 1
  }

  predicate Superseded(answers: seq<Answer>, term: nat) { exists a <- answers :: a.Supersedes(term) }

  /** The first later term that arrives, if any. */
  function LaterTerm(answers: seq<Answer>, term: nat): nat {
    if answers == [] then term
    else if answers[0].Supersedes(term) then answers[0].reply.value.term
    else LaterTerm(answers[1..], term)
  }

  /** A candidate that did not win. */
  function Defeated(n: Node, answers: seq<Answer>): Node {
    if Superseded(answers, n.ps.term) then BecomeFollower(n, LaterTerm(answers, n.ps.term)) else n
  }

  lemma {:induction false} LaterTermIs(answers: seq<Answer>, term: nat, i: nat)
    requires i < |answers| && answers[i].Supersedes(term) && forall j :: 0 <= j < i ==> !answers[j].Supersedes(term)
    ensures LaterTerm(answers, term) == answers[i].reply.value.term
  {
    if i > 0 { LaterTermIs(answers[1..], term, i - 1); }
  }

  /** After `i` answers, none from a later term, the count is `votes`. */
  ghost predicate Counted(answers: seq<Answer>, term: nat, i: nat, votes: nat)
    requires i <= |answers|
  {
    && 1 + GrantsInTime(answers, term) == votes + GrantsInTime(answers[i..], term)
    && forall j :: 0 <= j < i ==> !answers[j].Supersedes(term)
  }

  lemma CountOne(answers: seq<Answer>, term: nat, i: nat, votes: nat)
    requires i < |answers| && Counted(answers, term, i, votes)
    ensures answers[i].Supersedes(term) ==> 1 + GrantsInTime(answers, term) == votes && Superseded(answers, term)
    ensures !answers[i].Supersedes(term) ==>
              Counted(answers, term, i + 1, votes + if answers[i].Grants() then 1 else 0)
  {
    assert answers[i..][1..] == answers[i + 1..];
    assert answers[i] in answers;
  }

  lemma {:induction false} AnswersCountPeers(answers: seq<Answer>, peers: set<string>)
    requires AnswersOf(answers, peers)
    ensures |peers| == |answers|
  {
    if answers != [] {
      var last := answers[|answers| - 1];
      AnswersCountPeers(answers[..|answers| - 1], peers - {last.from});
    }
  }

  /** The vote loop still has a peer to hear from until its last answer, and none after it. */
  lemma HeardSoFar(answers: seq<Answer>, peers: set<string>, i: nat)
    requires AnswersOf(answers, peers) && i < |answers|
    ensures Heard(answers[..i + 1]) == Heard(answers[..i]) + {answers[i].from}
    ensures peers <= Heard(answers[..i + 1]) <==> i + 1 == |answers|
  {
    if i + 1 < |answers| {
      assert answers[i + 1].from in peers && answers[i + 1].from !in Heard(answers[..i + 1]);
    } else {
      assert answers[..i + 1] == answers;
    }
  }

  /** The vote loop before answer `i`: undecided, with `votes` counted. */
  ghost predicate Underway(loop: Loop, answers: seq<Answer>, term: nat, i: nat, votes: nat, peers: set<string>) {
    && i <= |answers| && Counted(answers, term, i, votes) && (answers != [] ==> 2 * votes <= |answers| + 1)
    && loop == if i < |answers| then Collecting(term, votes, Heard(answers[..i])) else Idle
  }

  lemma LoopBegins(answers: seq<Answer>, term: nat, peers: set<string>)
    requires AnswersOf(answers, peers) && |peers| == |answers|
    ensures Underway(VoteLoop(term, 1, {}, peers), answers, term, 0, 1, peers)
  {
    assert answers[0..] == answers && answers[..0] == [];
    assert peers <= {} <==> answers == [];
  }

  /** One turn of the loop ends it with the outcome that the answers call for, or leaves it undecided. */
  lemma OneTurn(id: string, n: Node, loop: Loop, answers: seq<Answer>, i: nat, votes: nat, peers: set<string>)
    requires AnswersOf(answers, peers) && i < |answers| == |peers| && n.role == Candidate
    requires Underway(loop, answers, n.ps.term, i, votes, peers)
    ensures var (n', loop') := TakeResult(id, n, loop, answers[i].from, answers[i].reply, peers);
            if loop' == AboutToBeat then Wins(answers, n.ps.term) && n' == BecomeLeader(id, n)
            else if n'.role == Follower then !Wins(answers, n.ps.term) && n' == Defeated(n, answers)
            else
              n' == n &&
              Underway(loop', answers, n.ps.term, i + 1, votes + (if answers[i].Grants() then 1 else 0), peers)
  {
    HeardSoFar(answers, peers, i);
    CountOne(answers, n.ps.term, i, votes);
    if answers[i].Supersedes(n.ps.term) { LaterTermIs(answers, n.ps.term, i); }
  }

  lemma LoopEnds(loop: Loop, answers: seq<Answer>, term: nat, votes: nat, peers: set<string>)
    requires Underway(loop, answers, term, |answers|, votes, peers)
    ensures !Wins(answers, term) && !Superseded(answers, term)
  {
  }
}
