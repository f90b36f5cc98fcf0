/**
  `Cia#send_commit_messages!`, over an abstract XML-RPC transport: how the
  transport answers the client construction and each call is a parameter, and
  the result is the list of requests the method makes and whether it returns or
  raises. One `rescue XMLRPC::FaultException` wraps the whole method, so a fault
  ends the method there: the documents after it are never sent.
 */
module Dispatch {

  import opened Escaping
  import Notification

  /** The address of the aggregation service. */
  const Server: string := "cia.vc"

  /** The remote procedure every document is sent to. */
  const DeliverProcedure: string := "hub.deliver"

  /** What the transport does with one request: complete it, raise
      `XMLRPC::FaultException`, or raise any other error. */
  datatype Reply = Ok | Fault | OtherFailure

  /** A request the method makes: building the client for a host, or a call. */
  datatype Request = Connect(host: string) | Call(procedure: string, argument: string)

  /** How the method ends: it returns normally or lets an error escape. */
  datatype Outcome = Returned | Raised

  /** The index of the first reply that is not `Ok`, or the number of replies. */
  function FirstFailure(replies: seq<Reply>): (k: nat)
    ensures k <= |replies|
    ensures forall j :: 0 <= j < k ==> replies[j] == Ok
    ensures k < |replies| ==> replies[k] != Ok
    decreases |replies|
  {
    if replies == [] || replies[0] != Ok then 0 else 1 + FirstFailure(replies[1..])
  }

  /** One `hub.deliver` call per document, in order. */
  function Calls(docs: seq<string>): (r: seq<Request>)
    ensures |r| == |docs|
    ensures forall j :: 0 <= j < |docs| ==> r[j] == Call(DeliverProcedure, docs[j])
  {
    seq(|docs|, j requires 0 <= j < |docs| => Call(DeliverProcedure, docs[j]))
  }

  /** How `rescue` sorts the error that ended the method. */
  function Rescue(r: Reply): Outcome {
    if r == OtherFailure then Raised else Returned
  }

  /** The requests made for `docs` and how the method ends, when the client
      construction gets `connect` and the call for `docs[j]` gets `replies[j]`:
      the calls stop right after the first one that does not complete. */
  function Deliver(docs: seq<string>, connect: Reply, replies: seq<Reply>): (seq<Request>, Outcome)
    requires |replies| == |docs|
  {
    if connect != Ok then ([Connect(Server)], Rescue(connect))
    else
      var k := FirstFailure(replies);
      if k == |docs| then ([Connect(Server)] + Calls(docs), Returned)
      else ([Connect(Server)] + Calls(docs[..k + 1]), Rescue(replies[k]))
  }

  /** `send_commit_messages!` for `event`: builds the client, then sends the
      documents one by one until a request does not complete. */
  method SendCommitMessages(event: Notification.PushEvent, d: Dialect, connect: Reply, replies: seq<Reply>)
    returns (requests: seq<Request>, outcome: Outcome)
    requires |replies| == |event.commits|
    ensures (requests, outcome) == Deliver(Notification.CommitMessages(event, d), connect, replies)
  {
    var docs := Notification.CommitMessages(event, d);
    requests, outcome := SendDocuments(docs, connect, replies);
  }

  /** The body of `send_commit_messages!` once the documents are built. */
  method SendDocuments(docs: seq<string>, connect: Reply, replies: seq<Reply>)
    returns (requests: seq<Request>, outcome: Outcome)
    requires |replies| == |docs|
    ensures (requests, outcome) == Deliver(docs, connect, replies)
  {
    requests := [Connect(Server)];
    if connect != Ok {
      outcome := Rescue(connect);
      return;
    }
    var i := 0;
    while i < |docs|
      invariant 0 <= i <= |docs|
      invariant forall j :: 0 <= j < i ==> replies[j] == Ok
      invariant requests == [Connect(Server)] + Calls(docs[..i])
      decreases |docs| - i
    {
      requests := requests + [Call(DeliverProcedure, docs[i])];
      assert docs[..i + 1][..i] == docs[..i];
      assert requests == [Connect(Server)] + Calls(docs[..i + 1]);
      if replies[i] != Ok {
        assert FirstFailure(replies) == i;
        outcome := Rescue(replies[i]);
        return;
      }
      i := i + 1;
    }
    assert docs[..i] == docs;
    outcome := Returned;
  }

  /** When every request completes, each document is sent once, in order, and
      the method returns. */
  lemma DeliverAllSent(docs: seq<string>, replies: seq<Reply>)
    requires |replies| == |docs|
    requires forall j :: 0 <= j < |replies| ==> replies[j] == Ok
    ensures var (requests, outcome) := Deliver(docs, Ok, replies);
      && |requests| == |docs| + 1
      && requests[0] == Connect(Server)
      && (forall j :: 0 <= j < |docs| ==> requests[j + 1] == Call(DeliverProcedure, docs[j]))
      && outcome == Returned
  {
  }

  /** A fault while building the client is swallowed and nothing is sent. */
  lemma DeliverConnectFault(docs: seq<string>, replies: seq<Reply>)
    requires |replies| == |docs|
    ensures Deliver(docs, Fault, replies) == ([Connect(Server)], Returned)
  {
  }

  /** A fault on the call for `docs[k]` is swallowed, and the documents after it
      are not sent: exactly `k + 1` calls are made. */
  lemma DeliverStopsAtFault(docs: seq<string>, replies: seq<Reply>, k: nat)
    requires |replies| == |docs| && k < |docs|
    requires forall j :: 0 <= j < k ==> replies[j] == Ok
    requires replies[k] == Fault
    ensures var (requests, outcome) := Deliver(docs, Ok, replies);
      && |requests| == k + 2
      && requests[k + 1] == Call(DeliverProcedure, docs[k])
      && outcome == Returned
  {
  }

  /** Whatever the transport does, the method builds the client and then sends a
      prefix of the documents, each once and in order. */
  lemma DeliverSendsPrefix(docs: seq<string>, connect: Reply, replies: seq<Reply>)
    requires |replies| == |docs|
    ensures var requests := Deliver(docs, connect, replies).0;
      && 1 <= |requests| <= |docs| + 1
      && requests[0] == Connect(Server)
      && (forall j :: 0 <= j < |requests| - 1 ==> requests[j + 1] == Call(DeliverProcedure, docs[j]))
  {
    if connect == Ok {
      var k := FirstFailure(replies);
      var sent := if k == |docs| then docs else docs[..k + 1];
      var requests := [Connect(Server)] + Calls(sent);
      assert Deliver(docs, connect, replies).0 == requests;
      forall j | 0 <= j < |requests| - 1
        ensures requests[j + 1] == Call(DeliverProcedure, docs[j])
      {
        assert requests[j + 1] == Calls(sent)[j];
        assert sent[j] == docs[j];
      }
    }
  }

  /** An error escapes exactly when the first request that does not complete
      fails with something other than a fault. */
  lemma DeliverRaises(docs: seq<string>, connect: Reply, replies: seq<Reply>)
    requires |replies| == |docs|
    ensures Deliver(docs, connect, replies).1 == Raised <==>
      || connect == OtherFailure
      || (connect == Ok && exists k :: 0 <= k < |replies| && replies[k] == OtherFailure
                             && forall j :: 0 <= j < k ==> replies[j] == Ok)
  {
    if connect == Ok {
      var k := FirstFailure(replies);
      if k < |docs| && replies[k] == OtherFailure {
        assert forall j :: 0 <= j < k ==> replies[j] == Ok;
      } else {
        forall k' | 0 <= k' < |replies| && replies[k'] == OtherFailure
          ensures exists j :: 0 <= j < k' && replies[j] != Ok
        {
          assert k < k' && replies[k] != Ok;
        }
      }
    }
  }
}
