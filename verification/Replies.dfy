/** Which requests the replies of a run answer, and how. */
module Replies {
  import opened BootScript
  import opened PxeSystem
  import DhcpWire

  /** The reply repeats what identifies the request, acknowledges a REQUEST and offers on a DISCOVER, goes
      to everyone if the client asked for that and else to the leased address, and carries the
      configured network (RFC 2131, section 4.3.1). */
  predicate IsAnswer(cfg: Config, r: Sent, req: Request) {
    && r.mac == req.mac && r.reply.xid == req.xid && r.reply.chaddr == req.chaddr
    && (r.reply.op == DhcpWire.DHCPOFFER <==> req.msgType == DhcpWire.DHCPDISCOVER)
    && (r.reply.op == DhcpWire.DHCPACK <==> req.msgType == DhcpWire.DHCPREQUEST)
    && (req.broadcast ==> r.target == 0xFFFF_FFFF)
    && (!req.broadcast ==> r.target == r.reply.yiaddr)
    && r.reply.siaddr == cfg.serverIp && r.reply.subnet == cfg.subnetMask
    && r.reply.gateway == cfg.gateway && r.reply.leaseSecs == cfg.leaseSecs
  }

  /** The requests that a run receives, in order. */
  function Requests(actions: seq<Action>): seq<Request> {
    if actions == [] then []
    else
      var front := Requests(actions[..|actions| - 1]);
      match actions[|actions| - 1]
      case Receive(req) => front + [req]
      case _ => front
  }

  lemma RequestsAppend(past: seq<Action>, a: Action)
    ensures Requests(past + [a]) == Requests(past) + (if a.Receive? then [a.req] else [])
  {
    assert (past + [a])[..|past|] == past;
  }

  /** Reply `i` answers request `at[i]`, and these requests come in the order of the replies. */
  ghost predicate Matched(cfg: Config, replies: seq<Sent>, requests: seq<Request>, at: seq<nat>) {
    && |at| == |replies|
    && (forall i, j :: 0 <= i < j < |at| ==> at[i] < at[j])
    && forall i :: 0 <= i < |at| ==>
         at[i] < |requests| && Answers(requests[at[i]]) && IsAnswer(cfg, replies[i], requests[at[i]])
  }

  /** The request in hand comes behind all the answered ones. */
  ghost predicate InHand(task: Task, requests: seq<Request>, at: seq<nat>, open: nat) {
    !task.Idle? ==>
      && open < |requests| && requests[open] == task.req && Answers(task.req)
      && forall i :: 0 <= i < |at| ==> at[i] < open
  }

  /** Only the last step of a request adds a reply, and it answers that request. */
  lemma StepReplies(cfg: Config, s: State, a: Action)
    ensures var t := Step(cfg, s, a);
      if s.task.Replying? && a.Proceed? then
        t.task.Idle? && |t.replies| == |s.replies| + 1 && t.replies[..|s.replies|] == s.replies
        && (Answers(s.task.req) ==> IsAnswer(cfg, t.replies[|s.replies|], s.task.req))
      else
        t.replies == s.replies
        && (s.task.Idle? && !t.task.Idle? ==> a.Receive? && Answers(a.req) && t.task.req == a.req)
        && (!s.task.Idle? && !t.task.Idle? ==> t.task.req == s.task.req)
  {
  }

  lemma StepKeepsMatch(cfg: Config, s: State, a: Action, requests: seq<Request>, at: seq<nat>, open: nat)
    returns (at': seq<nat>, open': nat)
    requires Matched(cfg, s.replies, requests, at) && InHand(s.task, requests, at, open)
    ensures var t, now := Step(cfg, s, a), requests + (if a.Receive? then [a.req] else []);
      Matched(cfg, t.replies, now, at') && InHand(t.task, now, at', open')
  {
    StepReplies(cfg, s, a);
    at', open' := at, open;
    if s.task.Replying? && a.Proceed? {
      at' := at + [open];
    } else if s.task.Idle? {
      open' := |requests|;
    }
  }

  lemma {:induction false} RunKeepsMatch(
      cfg: Config, s: State, past: seq<Action>, actions: seq<Action>, at: seq<nat>, open: nat)
    returns (at': seq<nat>)
    requires Matched(cfg, s.replies, Requests(past), at) && InHand(s.task, Requests(past), at, open)
    ensures Matched(cfg, Exec(cfg, s, actions).replies, Requests(past + actions), at')
    decreases |actions|
  {
    if actions == [] {
      assert past + actions == past;
      at' := at;
    } else {
      RequestsAppend(past, actions[0]);
      var next, inHand := StepKeepsMatch(cfg, s, actions[0], Requests(past), at, open);
      at' := RunKeepsMatch(cfg, Step(cfg, s, actions[0]), past + [actions[0]], actions[1..], next, inHand);
      assert past + [actions[0]] + actions[1..] == past + actions;
    }
  }

  /** In every run, the replies answer, one to one and in order, a subsequence of the requests that were
      received. */
  lemma RepliesAnswerRequests(cfg: Config, actions: seq<Action>)
    ensures exists at :: Matched(cfg, Exec(cfg, INIT, actions).replies, Requests(actions), at)
  {
    var at := RunKeepsMatch(cfg, INIT, [], actions, [], 0);
    assert [] + actions == actions;
  }
}
