/** The chain of asynchronous stages behind every request of `http_client`, on one client used again
    and again. */
module HttpClient {
  import opened Multipart

  datatype Stage = Resolve | Connect | Handshake | Write | Read

  datatype Outcome = Succeeded | Failed(message: string)

  /** What the network does to one request: the outcome of each stage; the response body the parser
      finds, given what it starts with in its buffer; the bytes left in the buffer afterwards; and the
      text that `%d` makes of the address of a message. */
  datatype Network = Network(
    outcome: Stage -> Outcome, response: string -> string, leftover: string, address: string)

  datatype Request = Request(verb: string, target: string, contentLength: int, body: string)

  function Prefix(s: Stage): (p: string)
    ensures p != ""
  {
    match s
    case Resolve => "resolve host failed:"
    case Connect => "async connect failed with error:"
    case Handshake => "async handshake failed with error:"
    case Write => "async write failed with error:"
    case Read => "async read failed with error:"
  }

  function Rank(s: Stage): nat {
    match s
    case Resolve => 0
    case Connect => 1
    case Handshake => 2
    case Write => 3
    case Read => 4
  }

  /** What follows the prefix when stage `s` fails: the message, but a failed write formats it with `%d`. */
  function Suffix(net: Network, s: Stage): string {
    match net.outcome(s)
    case Failed(message) => if s == Write then net.address else message
    case Succeeded => ""
  }

  // ------------------------------------------------------------------------
  // What a request should come to
  // ------------------------------------------------------------------------

  datatype Reply = Reply(error: string, text: string)

  /** The reply of a request whose stages before `s` have succeeded. */
  function ReplyFrom(net: Network, s: Stage): Reply
    decreases 5 - Rank(s)
  {
    match net.outcome(s)
    case Failed(_) => Reply(Prefix(s) + Suffix(net, s), "")
    case Succeeded =>
      match s
      case Resolve => ReplyFrom(net, Connect)
      case Connect => ReplyFrom(net, Handshake)
      case Handshake => ReplyFrom(net, Write)
      case Write => ReplyFrom(net, Read)
      case Read => Reply("", net.response(""))
  }

  /** The error is empty exactly when every stage succeeded; otherwise it says which stage failed first, and
      there is no response text. The message follows unless that stage was the write. */
  lemma ReplyExactly(net: Network)
    ensures var r := ReplyFrom(net, Resolve);
            && (r.error == "" <==> forall s :: net.outcome(s).Succeeded?)
            && (r.error == "" ==> r.text == net.response(""))
            && (r.error != "" ==> r.text == "" && exists s: Stage :: FirstFailure(net, s))
            && (FirstFailure(net, Resolve) ==> r.error == "resolve host failed:" + net.outcome(Resolve).message)
            && (FirstFailure(net, Connect) ==>
                  r.error == "async connect failed with error:" + net.outcome(Connect).message)
            && (FirstFailure(net, Handshake) ==>
                  r.error == "async handshake failed with error:" + net.outcome(Handshake).message)
            && (FirstFailure(net, Write) ==> r.error == "async write failed with error:" + net.address)
            && (FirstFailure(net, Read) ==> r.error == "async read failed with error:" + net.outcome(Read).message)
  {
    var s := FirstFailed(net, Resolve);
    forall t | FirstFailure(net, t) && FirstFailure(net, s)
      ensures t == s
    {
      SameFirst(net, t, s);
    }
  }

  /** The stages in the order in which they run, written out. */
  lemma FailuresInOrder(net: Network)
    ensures var ok := (s: Stage) => net.outcome(s).Succeeded?;
            && (FirstFailure(net, Resolve) <==> !ok(Resolve))
            && (FirstFailure(net, Connect) <==> ok(Resolve) && !ok(Connect))
            && (FirstFailure(net, Handshake) <==> ok(Resolve) && ok(Connect) && !ok(Handshake))
            && (FirstFailure(net, Write) <==> ok(Resolve) && ok(Connect) && ok(Handshake) && !ok(Write))
            && (FirstFailure(net, Read) <==> ok(Resolve) && ok(Connect) && ok(Handshake) && ok(Write) && !ok(Read))
  {
  }

  /** The text of the error settles which stage failed first. */
  lemma ErrorTellsStage(net: Network, other: Network, s: Stage, t: Stage)
    requires FirstFailure(net, s) && FirstFailure(other, t)
    requires ReplyFrom(net, Resolve).error == ReplyFrom(other, Resolve).error
    ensures s == t
  {
    var f := FirstFailed(net, Resolve);
    var g := FirstFailed(other, Resolve);
    SameFirst(net, f, s);
    SameFirst(other, g, t);
    PrefixesDiffer(s, t, Suffix(net, s), Suffix(other, t));
  }

  /** Among the five prefixes none begins another: they differ within their first nine characters. */
  lemma PrefixesDiffer(s: Stage, t: Stage, a: string, b: string)
    ensures s != t ==> Prefix(s) + a != Prefix(t) + b
  {
    var x, y := Prefix(s) + a, Prefix(t) + b;
    assert x[0] == Prefix(s)[0] && y[0] == Prefix(t)[0];
    assert x[6] == Prefix(s)[6] && y[6] == Prefix(t)[6];
  }

  function WithMessage(net: Network, s: Stage, message: string): Network {
    net.(outcome := t => if t == s then Failed(message) else net.outcome(t))
  }

  /** The message of the first failure reaches the caller exactly when it is not that of a write: two
      different messages then give different replies, and otherwise all give the same. */
  lemma MessageArrivesExactly(net: Network, s: Stage, a: string, b: string)
    requires FirstFailure(net, s) && a != b
    ensures ReplyFrom(WithMessage(net, s, a), Resolve) != ReplyFrom(WithMessage(net, s, b), Resolve) <==> s != Write
  {
    var x, y := WithMessage(net, s, a), WithMessage(net, s, b);
    assert FirstFailure(x, s) && FirstFailure(y, s);
    var f := FirstFailed(x, Resolve);
    var g := FirstFailed(y, Resolve);
    SameFirst(x, f, s);
    SameFirst(y, g, s);
    assert (Prefix(s) + a)[|Prefix(s)|..] == a && (Prefix(s) + b)[|Prefix(s)|..] == b;
  }

  lemma SameFirst(net: Network, s: Stage, t: Stage)
    requires FirstFailure(net, s) && FirstFailure(net, t)
    ensures s == t
  {
    assert Rank(s) == Rank(t);
  }

  predicate FirstFailure(net: Network, s: Stage) {
    net.outcome(s).Failed? && forall t: Stage :: Rank(t) < Rank(s) ==> net.outcome(t).Succeeded?
  }

  lemma {:induction false} FirstFailed(net: Network, s: Stage) returns (f: Stage)
    requires forall t: Stage :: Rank(t) < Rank(s) ==> net.outcome(t).Succeeded?
    ensures var r := ReplyFrom(net, s);
            if forall t :: net.outcome(t).Succeeded? then r == Reply("", net.response(""))
            else FirstFailure(net, f) && r == Reply(Prefix(f) + Suffix(net, f), "")
    decreases 5 - Rank(s)
  {
    f := s;
    if net.outcome(s).Succeeded? && s != Read {
      var next := match s case Resolve => Connect case Connect => Handshake case Handshake => Write case _ => Read;
      f := FirstFailed(net, next);
    }
  }

  /** The request goes out exactly when the connection stands and the write succeeds. */
  predicate Written(net: Network) {
    && net.outcome(Resolve).Succeeded? && net.outcome(Connect).Succeeded?
    && net.outcome(Handshake).Succeeded? && net.outcome(Write).Succeeded?
  }

  // ------------------------------------------------------------------------
  // The client
  // ------------------------------------------------------------------------

  class Client {
    var respText: string
    var error: string
    var stream: bool           // whether `stream` owns a connection
    var req: Request
    var buffer: string
    var resBody: string        // the body collected in `res`
    var outstanding: seq<Stage>  // asynchronous operations started on `ioc` and not completed
    var stopped: bool          // `ioc` has run out of work and was not restarted

    ghost var sent: seq<Request>
    ghost var completions: nat  // of the current request

    /** Between two requests. */
    predicate Idle()
      reads this
    {
      outstanding == [] && !stream
    }

    constructor ()
      ensures Idle() && sent == []
    {
      respText, error, stream, buffer, resBody := "", "", false, "", "";
      req := Request("GET", "", 0, "");
      outstanding, stopped, sent, completions := [], false, [], 0;
    }

    /** `POST(vector<data_block>)`: the body goes out whole, with its own length. */
    method PostForm(target: string, data: seq<Block>, net: Network)
      requires Idle()
      modifies this
      ensures Idle() && Reply(error, respText) == ReplyFrom(net, Resolve) && completions <= 5
      ensures sent == old(sent) || sent == old(sent) + [Request("POST", target, |Body(data)|, Body(data))]
      ensures Written(net) <==> sent != old(sent)
    {
      var multipart := BuildBody(data);
      req := Request("POST", target, |multipart|, multipart);
      ConnectAndRun(net);
    }

    /** `connect`: forget the last request, run the chain to its end, drop the connection. */
    method ConnectAndRun(net: Network)
      requires Idle()
      modifies this
      ensures Idle() && req == old(req)
      ensures Reply(error, respText) == ReplyFrom(net, Resolve)
      ensures completions <= 5
      ensures sent == if Written(net) then old(sent) + [req] else old(sent)
    {
      error := "";
      respText := "";
      completions := 0;
      outstanding := outstanding + [Resolve];
      stopped := false;
      Run(net);
      stream := false;
    }

    /** What holds while the chain waits for the stage that is outstanding. */
    ghost predicate Waiting(net: Network, before: seq<Request>)
      reads this
    {
      && |outstanding| == 1
      && var s := outstanding[0];
      && error == "" && respText == "" && ReplyFrom(net, s) == ReplyFrom(net, Resolve)
      && (forall t: Stage :: Rank(t) < Rank(s) ==> net.outcome(t).Succeeded?)
      && (stream <==> s != Resolve) && completions == Rank(s)
      && sent == (if s == Read then before + [req] else before)
      && (s == Read ==> buffer == "" && resBody == "")
    }

    ghost predicate Finished(net: Network, before: seq<Request>)
      reads this
    {
      && outstanding == [] && Reply(error, respText) == ReplyFrom(net, Resolve) && completions <= 5
      && sent == if Written(net) then before + [req] else before
    }

    /** `ioc.run()`: complete operations until none is outstanding; nothing runs on a stopped context. */
    method Run(net: Network)
      requires !stopped && Waiting(net, sent) && outstanding == [Resolve]
      modifies this
      ensures Finished(net, old(sent)) && stopped && req == old(req)
    {
      while outstanding != []
        invariant Waiting(net, old(sent)) || Finished(net, old(sent))
        invariant req == old(req)
        decreases if outstanding == [] then 0 else 5 - Rank(outstanding[0])
      {
        var s := outstanding[0];
        outstanding := outstanding[1..];
        Complete(s, net, old(sent));
      }
      stopped := true;
    }

    /** The completion handler of stage `s`, which starts the next stage or ends the chain. */
    method Complete(s: Stage, net: Network, ghost before: seq<Request>)
      requires outstanding == []
      requires error == "" && respText == "" && ReplyFrom(net, s) == ReplyFrom(net, Resolve)
      requires forall t: Stage :: Rank(t) < Rank(s) ==> net.outcome(t).Succeeded?
      requires (stream <==> s != Resolve) && completions == Rank(s)
      requires sent == (if s == Read then before + [req] else before)
      requires s == Read ==> buffer == "" && resBody == ""
      modifies this
      ensures if outstanding == [] then Finished(net, before)
              else Waiting(net, before) && Rank(outstanding[0]) == Rank(s) + 1
      ensures req == old(req)
    {
      completions := completions + 1;
      var outcome := net.outcome(s);
      if outcome.Failed? {
        error := Prefix(s) + if s == Write then net.address else outcome.message;
        if s == Read {
          buffer := net.leftover;
        }
        return;
      }
      match s {
        case Resolve =>
          stream := true;
          outstanding := outstanding + [Connect];
        case Connect =>
          outstanding := outstanding + [Handshake];
        case Handshake =>
          outstanding := outstanding + [Write];
        case Write =>
          sent := sent + [req];
          buffer := "";
          resBody := "";
          outstanding := outstanding + [Read];
        case Read =>
          resBody := resBody + net.response(buffer);
          buffer := net.leftover;
          respText := resBody;
      }
    }
  }

  /** Any number of requests on one client: the last reply depends on the last network alone. */
  method Requests(client: Client, nets: seq<Network>) returns (replies: seq<Reply>)
    requires client.Idle()
    modifies client
    ensures client.Idle() && |replies| == |nets|
    ensures forall i :: 0 <= i < |nets| ==> replies[i] == ReplyFrom(nets[i], Resolve)
    ensures nets != [] ==> Reply(client.error, client.respText) == ReplyFrom(nets[|nets| - 1], Resolve)
  {
    replies := [];
    for i := 0 to |nets|
      invariant client.Idle() && |replies| == i
      invariant forall k :: 0 <= k < i ==> replies[k] == ReplyFrom(nets[k], Resolve)
      invariant i > 0 ==> Reply(client.error, client.respText) == ReplyFrom(nets[i - 1], Resolve)
    {
      client.ConnectAndRun(nets[i]);
      replies := replies + [Reply(client.error, client.respText)];
    }
  }
}
