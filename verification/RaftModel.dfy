/** Leader election of `internal/raft`: what one lock section does to one node,
    and the cluster of nodes, run loops and messages that these sections form. */
module RaftModel {
  import opened Options

  datatype Role = Follower | Candidate | Leader

  /** The part of a node that is written to its state file; "" means no vote yet. */
  datatype Saved = Saved(term: nat, votedFor: string)

  /** A node between two lock sections: `ps` is in memory, `disk` is the state file. */
  datatype Node = Node(role: Role, leaderId: string, ps: Saved, disk: Saved)

  datatype VoteRequest = VoteRequest(term: nat, candidate: string)
  datatype VoteReply = VoteReply(term: nat, granted: bool)
  datatype Beat = Beat(term: nat, leader: string)
  datatype BeatReply = BeatReply(term: nat, success: bool)

  // ----- lock sections of one node -----

  function FreshNode(): Node { Reload(Saved(0, "")) }

  /** NewRaftNode: every volatile field is reset, the saved fields come from the file. */
  function Reload(disk: Saved): Node { Node(Follower, "", disk, disk) }

  function SaveState(n: Node): Node { n.(disk := n.ps) }

  function BecomeFollower(n: Node, term: nat): Node {
    if term > n.ps.term then SaveState(n.(role := Follower, ps := Saved(term, ""))) else n.(role := Follower)
  }

  function BecomeCandidate(id: string, n: Node): Node {
    SaveState(n.(role := Candidate, ps := Saved(n.ps.term + 1, id)))
  }

  function BecomeLeader(id: string, n: Node): Node { n.(role := Leader, leaderId := id) }

  /** The node on which the vote decision of HandleRequestVote is taken. */
  function CaughtUp(n: Node, term: nat): Node {
    if term > n.ps.term then BecomeFollower(n, term) else n
  }

  predicate Grants(n: Node, req: VoteRequest) {
    req.term >= n.ps.term &&
    var votedFor := CaughtUp(n, req.term).ps.votedFor;
    votedFor == "" || votedFor == req.candidate
  }

  function HandleVote(n: Node, req: VoteRequest): (Node, VoteReply) {
    if req.term < n.ps.term then (n, VoteReply(n.ps.term, false))
    else
      var m := CaughtUp(n, req.term);
      if Grants(n, req) then
        (SaveState(m.(ps := Saved(m.ps.term, req.candidate))), VoteReply(m.ps.term, true))
      else (m, VoteReply(m.ps.term, false))
  }

  /** The contents that HandleRequestVote writes to the state file, in order. */
  function VoteSaves(n: Node, req: VoteRequest): seq<Saved> {
    (if req.term > n.ps.term then [Saved(req.term, "")] else []) +
    (if Grants(n, req) then [Saved(req.term, req.candidate)] else [])
  }

  function HandleBeat(n: Node, beat: Beat): (Node, BeatReply) {
    if beat.term < n.ps.term then (n, BeatReply(n.ps.term, false))
    else
      var m := CaughtUp(n, beat.term);
      (m.(role := if m.role == Candidate then Follower else m.role, leaderId := beat.leader),
       BeatReply(m.ps.term, true))
  }

  // ----- the run loop -----

  /** Where a node's run loop stands between two of its lock sections.  `Collecting` is the vote loop of
      startElection: the election's term, the count so far, and the peers whose result was taken. */
  datatype Loop =
    | Idle
    | AboutToElect
    | Collecting(term: nat, votes: nat, heard: set<string>)
    | AboutToBeat

  function Majority(size: nat): nat { size / 2 + 1 }

  /** One iteration of the vote loop.  A failed call delivers no grant and term 0. */
  function TakeResult(id: string, n: Node, loop: Loop, from: string, result: Option<VoteReply>, peers: set<string>)
    : (Node, Loop)
    requires loop.Collecting?
  {
    var reply := if result.Some? then result.value else VoteReply(0, false);
    if reply.term > n.ps.term then (BecomeFollower(n, reply.term), Idle)
    else
      var votes := if reply.granted then loop.votes + 1 else loop.votes;
      if reply.granted && votes >= Majority(|peers| + 1) && n.role == Candidate then (BecomeLeader(id, n), AboutToBeat)
      else (n, VoteLoop(loop.term, votes, loop.heard + {from}, peers))
  }

  /** The vote loop ends once every peer's result was taken; with no peers its body never runs. */
  function VoteLoop(term: nat, votes: nat, heard: set<string>, peers: set<string>): Loop {
    if peers <= heard then Idle else Collecting(term, votes, heard)
  }

  // ----- the cluster -----

  /** A reply to the request that `to` sent in its election of term `asked`. */
  datatype VoteMessage = VoteMessage(from: string, to: string, asked: nat, reply: VoteReply)

  /** History: `voter` voted for `candidate` in `term`. */
  datatype Ballot = Ballot(voter: string, term: nat, candidate: string)

  /** History: `leader` became leader in `term`. */
  datatype Victory = Victory(term: nat, leader: string)

  /** Messages are never removed: one may be delivered late, repeatedly or not at all. */
  datatype Cluster = Cluster(
    nodes: map<string, Node>,
    loops: map<string, Loop>,
    requests: set<VoteRequest>,
    votes: set<VoteMessage>,
    beats: set<Beat>,
    beatReplies: set<BeatReply>,
    ballots: set<Ballot>,
    victories: set<Victory>)
  {
    function Peers(id: string): set<string> { nodes.Keys - {id} }

    predicate WellFormed() { nodes.Keys == loops.Keys && "" !in nodes }

    function Put(id: string, n: Node, loop: Loop): Cluster {
      this.(nodes := nodes[id := n], loops := loops[id := loop])
    }
  }

  ghost predicate Init(s: Cluster) {
    && s.WellFormed()
    && (forall id <- s.nodes :: s.nodes[id] == FreshNode() && s.loops[id] == Idle)
    && s.requests == {} && s.votes == {} && s.beats == {} && s.beatReplies == {} && s.ballots == {} && s.victories == {}
  }

  /** One lock section of one node, or a crash followed by a restart from the state file. */
  datatype Step =
    | TimerFires(id: string)
    | StartElection(id: string)
    | CollectVote(id: string, from: string, result: Option<VoteReply>)
    | LeaderTick(id: string)
    | SendHeartbeats(id: string)
    | ServeVote(id: string, request: VoteRequest)
    | CrashInVote(id: string, request: VoteRequest, saves: nat)
    | ServeBeat(id: string, beat: Beat)
    | TakeBeatReply(id: string, beatReply: BeatReply)
    | Restart(id: string)

  predicate CanCollect(s: Cluster, id: string, from: string, result: Option<VoteReply>) {
    s.WellFormed() && id in s.nodes && s.loops[id].Collecting? && from in s.Peers(id) - s.loops[id].heard &&
    (result.Some? ==> VoteMessage(from, id, s.loops[id].term, result.value) in s.votes)
  }

  /** What a node finds in its file when it crashes after the first `saves` saves of a vote handler. */
  function SavedAfter(n: Node, req: VoteRequest, saves: nat): Saved
    requires saves <= |VoteSaves(n, req)|
  {
    if saves == 0 then n.disk else VoteSaves(n, req)[saves - 1]
  }

  predicate Enabled(s: Cluster, step: Step) {
    s.WellFormed() && step.id in s.nodes &&
    var n, loop := s.nodes[step.id], s.loops[step.id];
    match step
    case TimerFires(_) => loop == Idle && n.role != Leader
    case StartElection(_) => loop == AboutToElect
    case CollectVote(id, from, result) => CanCollect(s, id, from, result)
    case LeaderTick(_) => loop == Idle && n.role == Leader
    case SendHeartbeats(_) => loop == AboutToBeat
    case ServeVote(id, req) => req in s.requests && req.candidate in s.Peers(id)
    case CrashInVote(id, req, saves) =>
      req in s.requests && req.candidate in s.Peers(id) && saves <= |VoteSaves(n, req)|
    case ServeBeat(id, beat) => beat in s.beats && beat.leader in s.Peers(id)
    case TakeBeatReply(_, reply) => reply in s.beatReplies
    case Restart(_) => true
  }

  function Apply(s: Cluster, step: Step): Cluster
    requires Enabled(s, step)
  {
    var id := step.id;
    var n, loop := s.nodes[id], s.loops[id];
    match step
    case TimerFires(_) => s.Put(id, n, AboutToElect)
    case StartElection(_) => ApplyStartElection(s, id)
    case CollectVote(_, from, result) => ApplyCollectVote(s, id, from, result)
    case LeaderTick(_) => s.Put(id, n, AboutToBeat)
    case SendHeartbeats(_) => s.Put(id, n, Idle).(beats := s.beats + {Beat(n.ps.term, id)})
    case ServeVote(_, req) => ApplyServeVote(s, id, req)
    case CrashInVote(_, req, saves) =>
      s.Put(id, Reload(SavedAfter(n, req, saves)), Idle)
    case ServeBeat(_, beat) =>
      var (n', reply) := HandleBeat(n, beat);
      s.Put(id, n', loop).(beatReplies := s.beatReplies + {reply})
    case TakeBeatReply(_, reply) =>
      s.Put(id, if reply.term > n.ps.term then BecomeFollower(n, reply.term) else n, loop)
    case Restart(_) => s.Put(id, Reload(n.disk), Idle)
  }

  function ApplyStartElection(s: Cluster, id: string): Cluster
    requires s.WellFormed() && id in s.nodes
  {
    var n' := BecomeCandidate(id, s.nodes[id]);
    s.Put(id, n', VoteLoop(n'.ps.term, 1, {}, s.Peers(id)))
     .(requests := s.requests + {VoteRequest(n'.ps.term, id)},
       ballots := s.ballots + {Ballot(id, n'.ps.term, id)})
  }

  function ApplyServeVote(s: Cluster, id: string, req: VoteRequest): Cluster
    requires s.WellFormed() && id in s.nodes
  {
    var (n', reply) := HandleVote(s.nodes[id], req);
    s.Put(id, n', s.loops[id])
     .(votes := s.votes + {VoteMessage(id, req.candidate, req.term, reply)},
       ballots := s.ballots + if reply.granted then {Ballot(id, req.term, req.candidate)} else {})
  }

  function ApplyCollectVote(s: Cluster, id: string, from: string, result: Option<VoteReply>): Cluster
    requires s.WellFormed() && id in s.nodes && s.loops[id].Collecting?
  {
    var (n', loop') := TakeResult(id, s.nodes[id], s.loops[id], from, result, s.Peers(id));
    s.Put(id, n', loop').(victories := s.victories + if loop'.AboutToBeat? then {Victory(n'.ps.term, id)} else {})
  }

  /** A run: an initial state and one state per step taken from it. */
  ghost predicate IsRun(run: seq<Cluster>, steps: seq<Step>) {
    && |run| == |steps| + 1
    && Init(run[0])
    && forall k :: 0 <= k < |steps| ==> Moves(run, steps, k)
  }

  ghost predicate Moves(run: seq<Cluster>, steps: seq<Step>, k: int)
    requires 0 <= k < |steps| && |run| == |steps| + 1
  {
    Enabled(run[k], steps[k]) && run[k + 1] == Apply(run[k], steps[k])
  }
}
