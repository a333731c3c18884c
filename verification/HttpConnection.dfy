/**
 Bytes that arrive in pieces: the parser resumes, and a connection serves the same requests
 however its input is cut.
 */
module HttpConnection {
  import opened Utf8
  import opened Text
  import opened Sequences
  import opened HttpParser
  import opened HttpRoundTrip

  function Flatten(bufs: seq<seq<byte>>): seq<byte>
  {
    if bufs == [] then [] else bufs[0] + Flatten(bufs[1..])
  }

  // `parse` called on one buffer after another until it has an answer.
  function Feed(p: Parser, bufs: seq<seq<byte>>): (o: Outcome)
    requires p.Valid()
    decreases |bufs|
  {
    if bufs == [] then Outcome(Indeterminate, Started(p), [])
    else
      var o := Parse(p, bufs[0]);
      if o.answer == Indeterminate then Feed(o.parser, bufs[1..])
      else Outcome(o.answer, o.parser, o.rest + Flatten(bufs[1..]))
  }

  // The local variable of the loop follows the parser's own flag.
  lemma {:induction false} LoopResumes(p: Parser, a: seq<byte>, b: seq<byte>)
    requires p.Valid() && p.stage != Unset
    ensures var o := Loop(p, p.parsingContent, a);
      Loop(p, p.parsingContent, a + b)
      == if o.answer == Indeterminate then Loop(o.parser, o.parser.parsingContent, b)
         else Outcome(o.answer, o.parser, o.rest + b)
    decreases |a|
  {
    if a == [] {
      Unit(b);
    } else {
      FirstOf(a, b);
      KeepsFlag(p, a[0]);
      var s := Dispatch(p, a[0]);
      assert (a + b)[0] == a[0] && (a + b)[1..] == a[1..] + b;
      hide Dispatch;
      if s.answer == Indeterminate || (s.answer == True && !p.parsingContent && s.next.parsingContent) {
        LoopResumes(s.next, a[1..], b);
      }
    }
  }

  lemma KeepsFlag(p: Parser, ch: byte)
    requires p.Valid() && p.stage != Unset
    ensures Dispatch(p, ch).answer == Indeterminate ==> Dispatch(p, ch).next.parsingContent == p.parsingContent
  {
  }

  /** Parsing one buffer after the other is parsing them together. */
  lemma Resumes(p: Parser, a: seq<byte>, b: seq<byte>)
    requires p.Valid()
    ensures var o := Parse(p, a);
      Parse(p, a + b)
      == if o.answer == Indeterminate then Parse(o.parser, b) else Outcome(o.answer, o.parser, o.rest + b)
  {
    hide Loop;
    LoopResumes(Started(p), a, b);
  }

  /** Every division of the input into buffers gives the same answer, parser and rest. */
  lemma {:induction false} AnyDivision(p: Parser, bufs: seq<seq<byte>>)
    requires p.Valid()
    ensures Feed(p, bufs) == Parse(p, Flatten(bufs))
    decreases |bufs|
  {
    hide Loop, Started;
    if bufs == [] {
      NothingToParse(p);
    } else {
      Resumes(p, bufs[0], Flatten(bufs[1..]));
      var o := Parse(p, bufs[0]);
      hide Parse, Flatten;
      if o.answer == Indeterminate {
        AnyDivision(o.parser, bufs[1..]);
      }
    }
  }

  lemma NothingToParse(p: Parser)
    requires p.Valid()
    ensures Parse(p, []) == Outcome(Indeterminate, Started(p), [])
  {
  }

  // ---- a connection ----

  // The value of the first header of that name.
  function GetHeader(hs: seq<Header>, name: seq<byte>): seq<byte>
  {
    if hs == [] then [] else if SameName(hs[0].name, name) then hs[0].value else GetHeader(hs[1..], name)
  }

  // `keep_alive`
  predicate KeepAlive(m: RequestMessage)
  {
    m.minor >= 1 && SameName(GetHeader(m.headers, Ascii("Connection")), Ascii("keep-alive"))
  }

  // `reset`: the header lines and the payload stay.
  function Reset(p: Parser): Parser
  {
    Fresh(p.kind).(headers := p.headers, payload := p.payload)
  }

  // `get_request` moves the header lines and the payload out of the parser.
  function Emptied(p: Parser): Parser
  {
    p.(uri := [], headers := [], payload := [])
  }

  datatype Reaction = Served(request: RequestMessage) | BadRequest

  // `handle_read` and `handle_write`: the reactions to the buffers, with bytes left in a buffer
  // parsed before the next one arrives.  Once a client asked to keep the connection alive, it
  // stays alive.
  function Session(p: Parser, alive: bool, bufs: seq<seq<byte>>): seq<Reaction>
    requires p.Valid()
    decreases |Flatten(bufs)|, |bufs|
  {
    if bufs == [] then []
    else
      var o := Parse(p, bufs[0]);
      if o.answer == Indeterminate then Session(o.parser, alive, bufs[1..])
      else
        LessLeft(bufs, o.rest);
        [ReactionTo(o)]
        + if StaysAlive(o, alive) then Session(NextParser(o), true, Leftover(o.rest, bufs[1..])) else []
  }

  function ReactionTo(o: Outcome): Reaction
  {
    if o.answer == True then Served(GetRequest(o.parser)) else BadRequest
  }

  predicate StaysAlive(o: Outcome, alive: bool)
  {
    alive || (o.answer == True && KeepAlive(GetRequest(o.parser)))
  }

  function NextParser(o: Outcome): (p: Parser)
    requires o.parser.Valid()
    ensures p.Valid()
  {
    if o.answer == True then Reset(Emptied(o.parser)) else Reset(o.parser)
  }

  function Leftover(rest: seq<byte>, bufs: seq<seq<byte>>): seq<seq<byte>>
  {
    if rest == [] then bufs else [rest] + bufs
  }

  lemma LessLeft(bufs: seq<seq<byte>>, rest: seq<byte>)
    requires bufs != []
    ensures Flatten(Leftover(rest, bufs[1..])) == rest + Flatten(bufs[1..])
    ensures |Flatten(bufs)| == |bufs[0]| + |Flatten(bufs[1..])|
  {
  }

  lemma SessionOne(p: Parser, alive: bool, text: seq<byte>)
    requires p.Valid()
    ensures var o := Parse(p, text);
      Session(p, alive, [text])
      == if o.answer == Indeterminate then []
         else [ReactionTo(o)] + if StaysAlive(o, alive) then Session(NextParser(o), true, [o.rest]) else []
  {
    var o := Parse(p, text);
    hide Parse, StaysAlive, ReactionTo, NextParser;
    if o.answer == Indeterminate {
      assert Session(o.parser, alive, []) == [];
    } else if o.rest == [] {
      NothingToParse(NextParser(o));
      assert Session(NextParser(o), true, [[]]) == Session(Started(NextParser(o)), true, []);
    }
  }

  /** What a connection does depends on the bytes it gets, not on how they are divided. */
  lemma {:induction false} SessionAnyDivision(p: Parser, alive: bool, bufs: seq<seq<byte>>)
    requires p.Valid()
    ensures Session(p, alive, bufs) == Session(p, alive, [Flatten(bufs)])
    decreases |Flatten(bufs)|, |bufs|
  {
    if bufs == [] {
      NothingToParse(p);
      SessionOne(p, alive, []);
    } else {
      var (o, more) := (Parse(p, bufs[0]), Flatten(bufs[1..]));
      Resumes(p, bufs[0], more);
      SessionOne(p, alive, bufs[0] + more);
      LessLeft(bufs, o.rest);
      hide Parse, Flatten, Leftover;
      if o.answer == Indeterminate {
        SessionAnyDivision(o.parser, alive, bufs[1..]);
        SessionOne(o.parser, alive, more);
      } else if StaysAlive(o, alive) {
        SessionAnyDivision(NextParser(o), true, Leftover(o.rest, bufs[1..]));
      }
    }
  }

  // ---- requests one behind the other ----

  ghost predicate Sendable(m: RequestMessage)
  {
    && SendableLine(m) && SendableHeaders(m.headers) && Announces(m.headers, |m.payload|)
    && !(m.payload == [] && PostOrPut(m.verb) && ClosesLast(m.headers, 0))
  }

  function RequestsBytes(ms: seq<RequestMessage>): seq<byte>
  {
    if ms == [] then [] else RequestBytes(ms[0]) + RequestsBytes(ms[1..])
  }

  function AllServed(ms: seq<RequestMessage>): seq<Reaction>
  {
    if ms == [] then [] else [Served(ms[0])] + AllServed(ms[1..])
  }

  // What a connection serves: when the first request does not ask to keep it alive, only that one.
  function Expected(alive: bool, ms: seq<RequestMessage>): seq<RequestMessage>
  {
    if ms == [] || alive || KeepAlive(ms[0]) then ms else ms[..1]
  }

  lemma {:induction false} ServesText(alive: bool, ms: seq<RequestMessage>)
    requires forall i :: 0 <= i < |ms| ==> Sendable(ms[i])
    ensures Session(Fresh(Request), alive, [RequestsBytes(ms)]) == AllServed(Expected(alive, ms))
    decreases |ms|
  {
    var p := Fresh(Request);
    SessionOne(p, alive, RequestsBytes(ms));
    if ms == [] {
      NothingToParse(p);
    } else {
      var rest := RequestsBytes(ms[1..]);
      assert Sendable(ms[0]);
      RequestRoundTrip(ms[0], rest);
      var o := Parse(p, RequestBytes(ms[0]) + rest);
      StartsAnew(o);
      assert ms[..1] == [ms[0]] && AllServed([ms[0]]) == [Served(ms[0])];
      hide Parse, Session, Sendable, KeepAlive, RequestBytes, NextParser;
      if StaysAlive(o, alive) {
        ServesText(true, ms[1..]);
      }
    }
  }

  lemma StartsAnew(o: Outcome)
    requires o.parser.Valid() && o.answer == True
    ensures NextParser(o) == Fresh(o.parser.kind)
  {
  }

  /**
   Requests sent one behind the other and divided in any way are served in order, each as it was
   sent.
   */
  lemma Pipelined(ms: seq<RequestMessage>, bufs: seq<seq<byte>>)
    requires forall i :: 0 <= i < |ms| ==> Sendable(ms[i])
    requires Flatten(bufs) == RequestsBytes(ms)
    ensures Session(Fresh(Request), false, bufs) == AllServed(Expected(false, ms))
  {
    SessionAnyDivision(Fresh(Request), false, bufs);
    ServesText(false, ms);
  }
}
