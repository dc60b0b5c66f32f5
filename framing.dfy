/** on_uv_read and the write-then-close callbacks, on values: how the bytes a
    connection has received are framed into a request, how the request line is
    cut into path and query, and which writes and closes follow. */
module Framing {
  import opened Bytes
  import opened Router

  /** The blank line that ends a request header. */
  const BOUNDARY: seq<byte> := [CR, LF, CR, LF]
  const GET: seq<byte> := [71, 69, 84]  // "GET"
  const QUESTION: byte := 63

  // ---- The request line ----

  /** How far `while(isspace(*pathinfo)) pathinfo++` moves from `p`. */
  function SkipSpaces(h: seq<byte>, p: nat): (q: nat)
    requires p <= |h|
    ensures p <= q <= |h|
    ensures forall i :: p <= i < q ==> IsSpace(h[i])
    ensures q < |h| ==> !IsSpace(h[q])
    decreases |h| - p
  {
    if p < |h| && IsSpace(h[p]) then SkipSpaces(h, p + 1) else p
  }

  /** Positions in a request header: the path starts at `start`, the target
      ends at `stop` (the first space, or the end), and `question` is the
      first '?' of the target. */
  datatype Line = Line(start: nat, stop: nat, question: Option<nat>)

  /** `l` is where on_uv_read's scan of `h` stops, stated without the scan. */
  predicate LineOf(h: seq<byte>, l: Line)
  {
    && 3 <= l.start <= l.stop <= |h|
    && (forall i :: 3 <= i < l.start ==> IsSpace(h[i]))
    && (l.start < |h| ==> !IsSpace(h[l.start]))
    && SP !in h[l.start..l.stop]
    && (l.stop < |h| ==> h[l.stop] == SP)
    && (l.question.Some? ==>
          l.start <= l.question.value < l.stop && h[l.question.value] == QUESTION
          && QUESTION !in h[l.start..l.question.value])
    && (l.question.None? ==> QUESTION !in h[l.start..l.stop])
  }

  /** `strchr(pathinfo, ' ')`: the end of the target that starts at `start`. */
  function TargetEnd(h: seq<byte>, start: nat): (stop: nat)
    requires start <= |h|
    ensures start <= stop <= |h| && SP !in h[start..stop]
    ensures stop < |h| ==> h[stop] == SP
  {
    match IndexOf(h[start..], SP)
    case Some(e) =>
      assert h[start..start + e] == h[start..][..e];
      start + e
    case None =>
      assert h[start..|h|] == h[start..];
      |h|
  }

  /** `strchr(pathinfo, '?')` once the target has been cut at `stop`. */
  function QueryMark(h: seq<byte>, start: nat, stop: nat): (q: Option<nat>)
    requires start <= stop <= |h|
    ensures q.Some? ==> start <= q.value < stop && h[q.value] == QUESTION && QUESTION !in h[start..q.value]
    ensures q.None? ==> QUESTION !in h[start..stop]
  {
    match IndexOf(h[start..stop], QUESTION)
    case Some(i) =>
      assert h[start..start + i] == h[start..stop][..i];
      Some(start + i)
    case None => None
  }

  /** The GET test and the three scans of on_uv_read over the header `h` (the
      bytes before the boundary): skip whitespace after "GET", strchr for the
      space, strchr for the '?'. */
  function ScanLine(h: seq<byte>): (l: Option<Line>)
    ensures l.Some? <==> GET <= h
    ensures l.Some? ==> LineOf(h, l.value)
  {
    if !(GET <= h) then None
    else
      var start := SkipSpaces(h, 3);
      var stop := TargetEnd(h, start);
      Some(Line(start, stop, QueryMark(h, start, stop)))
  }

  /** A GET request: the path and the query (None when the target has no '?'). */
  datatype Request = Request(path: seq<byte>, query: Option<seq<byte>>)

  /** The path and query that the NULs written at `l` delimit. */
  function RequestAt(h: seq<byte>, l: Line): (r: Request)
    requires LineOf(h, l)
    ensures SP !in r.path && QUESTION !in r.path
    ensures r.query.Some? ==> SP !in r.query.value
    ensures NUL !in h ==> NUL !in r.path && (r.query.Some? ==> NUL !in r.query.value)
  {
    match l.question
    case None => Request(h[l.start..l.stop], None)
    case Some(q) =>
      Split(h, l.start, q, l.stop);
      Request(h[l.start..q], Some(h[q + 1..l.stop]))
  }

  /** The slices on either side of `q` are slices of `h[a..b]`. */
  lemma Split(h: seq<byte>, a: nat, q: nat, b: nat)
    requires a <= q < b <= |h|
    ensures h[a..q] == h[a..b][..q - a] && h[q + 1..b] == h[a..b][q + 1 - a..]
  {
  }

  /** The request a header holds, if it is a GET. */
  function ParseRequest(h: seq<byte>): Option<Request>
  {
    match ScanLine(h)
    case None => None
    case Some(l) => Some(RequestAt(h, l))
  }

  /** The request target as a client writes it. */
  function Target(req: Request): seq<byte>
  {
    req.path + (if req.query.Some? then [QUESTION] + req.query.value else [])
  }

  /** A request line "GET <target> <rest>". */
  function RequestLine(req: Request, rest: seq<byte>): seq<byte>
  {
    GET + ([SP] + (Target(req) + ([SP] + rest)))
  }

  /** Requests whose line reads back as the same request. */
  predicate Printable(req: Request)
  {
    && 0 < |req.path| && !IsSpace(req.path[0])
    && SP !in req.path && QUESTION !in req.path
    && (req.query.Some? ==> SP !in req.query.value)
  }

  /** Parsing a request line recovers the path and the query. */
  lemma {:induction false} ParseRequestLine(req: Request, rest: seq<byte>)
    requires Printable(req)
    ensures ParseRequest(RequestLine(req, rest)) == Some(req)
  {
    var t := Target(req);
    var h := RequestLine(req, rest);
    ScanRequestLine(req, rest);
    assert h[4..4 + |t|] == t;
    RequestAtShape(h, req);
  }

  /** The NULs written over a target `t` at position 4 delimit its path and
      query. */
  lemma RequestAtShape(h: seq<byte>, req: Request)
    requires QUESTION !in req.path
    requires LineOf(h, Line(4, 4 + |Target(req)|, if req.query.Some? then Some(4 + |req.path|) else None))
    requires h[4..4 + |Target(req)|] == Target(req)
    ensures RequestAt(h, Line(4, 4 + |Target(req)|, if req.query.Some? then Some(4 + |req.path|) else None)) == req
  {
    if req.query.Some? {
      QueryAtShape(h, req.path, req.query.value);
    } else {
      assert Target(req) == req.path;
    }
  }

  lemma QueryAtShape(h: seq<byte>, path: seq<byte>, query: seq<byte>)
    requires 4 + |path| + 1 + |query| <= |h| && h[4..4 + |path| + 1 + |query|] == path + [QUESTION] + query
    ensures h[4..4 + |path|] == path && h[4 + |path| + 1..4 + |path| + 1 + |query|] == query
  {
    var t := path + [QUESTION] + query;
    assert h[4..4 + |path|] == t[..|path|];
    assert h[4 + |path| + 1..4 + |t|] == t[|path| + 1..];
  }

  /** Where the scans stop in a request line. */
  lemma {:induction false} ScanRequestLine(req: Request, rest: seq<byte>)
    requires Printable(req)
    ensures var t := Target(req);
            ScanLine(RequestLine(req, rest))
              == Some(Line(4, 4 + |t|, if req.query.Some? then Some(4 + |req.path|) else None))
  {
    var t := Target(req);
    var h := RequestLine(req, rest);
    assert h[..3] == GET;
    assert h[4..] == t + ([SP] + rest);
    assert h[3] == SP && h[4] == req.path[0];
    ScanOfShape(h, req, [SP] + rest);
  }

  /** The scans over any header that reads "GET", a space, the target and a
      space. */
  lemma ScanOfShape(h: seq<byte>, req: Request, tail: seq<byte>)
    requires Printable(req)
    requires 4 < |h| && GET <= h && h[3] == SP && h[4] == req.path[0]
    requires h[4..] == Target(req) + tail && 0 < |tail| && tail[0] == SP
    ensures ScanLine(h) == Some(Line(4, 4 + |Target(req)|, if req.query.Some? then Some(4 + |req.path|) else None))
  {
    SkipOneSpace(h);
    TargetHasNoSpace(req);
    TargetEndAt(h, 4, Target(req), tail);
    QueryMarkAt(h, 4, req);
    ScanLineIs(h, 4, 4 + |Target(req)|, if req.query.Some? then Some(4 + |req.path|) else None);
  }

  lemma ScanLineIs(h: seq<byte>, start: nat, stop: nat, q: Option<nat>)
    requires GET <= h && SkipSpaces(h, 3) == start && start <= stop <= |h|
    requires TargetEnd(h, start) == stop && QueryMark(h, start, stop) == q
    ensures ScanLine(h) == Some(Line(start, stop, q))
  {
  }

  lemma SkipOneSpace(h: seq<byte>)
    requires 4 < |h| && h[3] == SP && !IsSpace(h[4])
    ensures SkipSpaces(h, 3) == 4
  {
    assert SkipSpaces(h, 4) == 4;
  }

  lemma TargetHasNoSpace(req: Request)
    requires SP !in req.path && (req.query.Some? ==> SP !in req.query.value)
    ensures SP !in Target(req)
  {
  }

  /** strchr for the space finds the one after the target `t`. */
  lemma TargetEndAt(h: seq<byte>, start: nat, t: seq<byte>, tail: seq<byte>)
    requires start <= |h| && h[start..] == t + tail && SP !in t && 0 < |tail| && tail[0] == SP
    ensures TargetEnd(h, start) == start + |t| && h[start..start + |t|] == t
  {
    IndexOfAppend(t, tail, SP);
    assert h[start..start + |t|] == h[start..][..|t|];
  }

  /** strchr for the '?' finds the one after the path. */
  lemma QueryMarkAt(h: seq<byte>, start: nat, req: Request)
    requires QUESTION !in req.path
    requires start + |Target(req)| <= |h| && h[start..start + |Target(req)|] == Target(req)
    ensures QueryMark(h, start, start + |Target(req)|) == if req.query.Some? then Some(start + |req.path|) else None
  {
    TargetSplits(req);
  }

  /** The first '?' of a target ends its path. */
  lemma TargetSplits(req: Request)
    requires QUESTION !in req.path
    ensures var t := Target(req);
            match IndexOf(t, QUESTION)
            case None => req.query.None? && t == req.path
            case Some(q) => req.query.Some? && q == |req.path| && t[..q] == req.path && t[q + 1..] == req.query.value
  {
    var t := Target(req);
    if req.query.Some? {
      IndexOfAppend(req.path, [QUESTION] + req.query.value, QUESTION);
      assert t[..|req.path|] == req.path;
      assert t[|req.path| + 1..] == req.query.value;
    } else {
      assert t == req.path;
    }
  }

  // ---- One read ----

  /** What on_uv_read leaves behind: the accumulated bytes with its NULs
      written, and the actions it asked for. */
  datatype Outcome = Outcome(acc: seq<byte>, actions: seq<Action>)

  /** The boundary as `strstr(membuf->data, "\r\n\r\n")` finds it; the search
      runs over the accumulated bytes up to the first NUL. */
  function Boundary(acc: seq<byte>): (r: Option<nat>)
    ensures r.Some? ==> r.value + |BOUNDARY| <= |CString(acc)| && OccursAt(acc, BOUNDARY, r.value)
    ensures r.Some? ==> NUL !in acc[..r.value]
    ensures r.Some? ==> forall j :: 0 <= j < r.value ==> !OccursAt(CString(acc), BOUNDARY, j)
    ensures r.None? ==> forall j :: 0 <= j <= |CString(acc)| ==> !OccursAt(CString(acc), BOUNDARY, j)
  {
    var r := Find(CString(acc), BOUNDARY);
    if r.Some? then
      assert acc[..r.value] == CString(acc)[..r.value];
      assert acc[r.value..r.value + 4] == CString(acc)[r.value..r.value + 4];
      r
    else r
  }

  /** The accumulated bytes once on_uv_read has written its NULs over the
      boundary at `b` and, for a GET, over the space and the '?' that end the
      path. */
  function Marked(acc: seq<byte>, b: nat): (m: seq<byte>)
    requires b < |acc|
    ensures |m| == |acc| && m[b] == NUL
  {
    var acc1 := acc[b := NUL];
    match ScanLine(acc[..b])
    case None => acc1
    case Some(l) =>
      var acc2 := if l.stop < b then acc1[l.stop := NUL] else acc1;
      if l.question.Some? then acc2[l.question.value := NUL] else acc2
  }

  /** What a complete header leads to: a close when it is not a GET, and
      otherwise whatever tinyweb_on_request_get does with its path and query. */
  function Dispatch(cfg: Config, h: seq<byte>): seq<Action>
    requires NUL !in h
  {
    match ScanLine(h)
    case None => [Close]
    case Some(l) =>
      var req := RequestAt(h, l);
      OnRequestGet(cfg, req.path, req.query)
  }

  /** The bytes after the chunk has been appended: look for the boundary and,
      on a hit, write the NULs and dispatch the header before it. */
  function OnAppended(cfg: Config, acc: seq<byte>): (o: Outcome)
    ensures |o.acc| == |acc|
  {
    match Boundary(acc)
    case None => Outcome(acc, [])
    case Some(b) => Outcome(Marked(acc, b), Dispatch(cfg, acc[..b]))
  }

  /** on_uv_read: a positive `nread` appends that many bytes and frames; -1
      closes; any other value does nothing. */
  function HandleRead(cfg: Config, acc: seq<byte>, nread: int, chunk: seq<byte>): (o: Outcome)
    requires nread > 0 ==> |chunk| == nread
    ensures nread > 0 ==> |o.acc| == |acc| + nread
    ensures nread <= 0 ==> o.acc == acc
    ensures nread == -1 ==> o.actions == [Close]
    ensures nread <= 0 && nread != -1 ==> o.actions == []
  {
    if nread > 0 then OnAppended(cfg, acc + chunk)
    else if nread == -1 then Outcome(acc, [Close])
    else Outcome(acc, [])
  }

  /** Writing the NULs changes no byte into anything but a NUL. */
  lemma MarkedKeepsBytes(acc: seq<byte>, b: nat)
    requires b < |acc|
    ensures var m := Marked(acc, b);
            forall i :: 0 <= i < |acc| ==> m[i] == acc[i] || m[i] == NUL
  {
  }

  /** Framing keeps every byte received or overwrites it with a NUL. */
  lemma OnAppendedKeepsBytes(cfg: Config, acc: seq<byte>)
    ensures var o := OnAppended(cfg, acc);
            forall i :: 0 <= i < |acc| ==> o.acc[i] == acc[i] || o.acc[i] == NUL
  {
    if Boundary(acc).Some? {
      MarkedKeepsBytes(acc, Boundary(acc).value);
    }
  }

  /** After a positive read, each byte is the byte received there or a NUL. */
  lemma HandleReadKeepsBytes(cfg: Config, acc: seq<byte>, nread: int, chunk: seq<byte>)
    requires nread > 0 && |chunk| == nread
    ensures var o := HandleRead(cfg, acc, nread, chunk);
            forall i :: 0 <= i < |o.acc| ==> o.acc[i] == (acc + chunk)[i] || o.acc[i] == NUL
  {
    OnAppendedKeepsBytes(cfg, acc + chunk);
  }

  /** Bytes in which strstr finds no boundary, and which keep it so whatever
      is appended. */
  predicate Spent(acc: seq<byte>)
  {
    NUL in acc && Boundary(acc).None?
  }

  /** Without a boundary, a read neither writes nor closes, and all it does is
      keep the bytes. */
  lemma {:induction false} NoBoundaryNoAction(cfg: Config, acc: seq<byte>, chunk: seq<byte>)
    requires 0 < |chunk| && Boundary(acc + chunk).None?
    ensures HandleRead(cfg, acc, |chunk|, chunk) == Outcome(acc + chunk, [])
  {
  }

  /** A header that is not a GET is closed without a write. */
  lemma {:induction false} NotGetCloses(cfg: Config, acc: seq<byte>)
    requires Boundary(acc).Some? && !(GET <= acc[..Boundary(acc).value])
    ensures OnAppended(cfg, acc).actions == [Close]
  {
  }

  /** A boundary split over two reads is found on the read that completes it. */
  lemma {:induction false} SplitBoundaryFound(cfg: Config, acc: seq<byte>, chunk: seq<byte>, i: nat)
    requires NUL !in acc + chunk && OccursAt(acc + chunk, BOUNDARY, i)
    requires Boundary(acc).None? && 0 < |chunk|
    ensures HandleRead(cfg, acc, |chunk|, chunk).actions != []
  {
    CStringAppend(acc + chunk, []);
    assert acc + chunk + [] == acc + chunk;
    var s := acc + chunk;
    assert CString(s) == s by {
      assert NUL !in s;
    }
    var b := Boundary(s).value;
    DispatchActs(cfg, s[..b]);
  }

  /** A complete header is closed or answered by exactly one write. */
  lemma DispatchActs(cfg: Config, h: seq<byte>)
    requires NUL !in h
    ensures var acts := Dispatch(cfg, h);
            acts == [Close] <==> !(GET <= h)
    ensures var acts := Dispatch(cfg, h);
            acts == [Close] || (|acts| == 1 && acts[0].Write?)
  {
    match ScanLine(h)
    case None =>
    case Some(l) =>
      var req := RequestAt(h, l);
      ExactlyOneWrite(cfg, req.path, req.query);
  }

  /** The NULs written over a found boundary leave bytes in which no boundary
      is found again. */
  lemma {:induction false} MarkedIsSpent(acc: seq<byte>, marked: seq<byte>)
    requires Boundary(acc).Some?
    requires |marked| == |acc| && marked[Boundary(acc).value] == NUL
    requires forall i :: 0 <= i < |acc| ==> marked[i] == acc[i] || marked[i] == NUL
    ensures Spent(marked)
  {
    var b := Boundary(acc).value;
    var c := CString(marked);
    var k := |c|;
    assert k <= b;
    assert c == acc[..k] by {
      forall i | 0 <= i < k
        ensures c[i] == acc[i]
      {
        assert c[i] == marked[i];
      }
    }
  }

  /** Appending to spent bytes leaves them spent. */
  lemma {:induction false} SpentAppend(acc: seq<byte>, chunk: seq<byte>)
    requires Spent(acc)
    ensures Spent(acc + chunk)
  {
    CStringAppend(acc, chunk);
  }

  /** After a dispatch, the bytes are spent: no later read dispatches again. */
  lemma {:induction false} DispatchSpends(cfg: Config, acc: seq<byte>)
    requires Boundary(acc).Some?
    ensures Spent(OnAppended(cfg, acc).acc)
  {
    var b := Boundary(acc).value;
    MarkedKeepsBytes(acc, b);
    MarkedIsSpent(acc, Marked(acc, b));
  }

  /** A complete GET request in the bytes received so far is handed to
      tinyweb_on_request_get with the path and query of its request line. */
  lemma {:induction false} RequestDispatched(cfg: Config, req: Request, rest: seq<byte>, tail: seq<byte>)
    requires Printable(req) && NUL !in Target(req) && NUL !in rest
    requires Find(RequestLine(req, rest) + BOUNDARY, BOUNDARY) == Some(|RequestLine(req, rest)|)
    ensures OnAppended(cfg, RequestLine(req, rest) + BOUNDARY + tail).actions
              == OnRequestGet(cfg, req.path, req.query)
  {
    var h := RequestLine(req, rest);
    var s := h + BOUNDARY + tail;
    assert NUL !in h;
    assert NUL !in h + BOUNDARY;
    CStringAppend(h + BOUNDARY, tail);
    FindAppend(h + BOUNDARY, CString(tail), BOUNDARY);
    assert Boundary(s) == Some(|h|);
    assert s[..|h|] == h;
    ParseRequestLine(req, rest);
  }

  // ---- The connection ----

  /** What the event loop reports: a read callback with its `nread`, a write
      callback with its status, and the close callback. */
  datatype Event = Read(nread: int, chunk: seq<byte>) | WriteDone(status: int) | Closed

  /** A connection as the event loop sees it: the bytes received, whether a
      write is queued, whether uv_close has been called, whether the close
      callback has run, and how many writes and closes were issued. */
  datatype Conn = Conn(acc: seq<byte>, writePending: bool, closing: bool, released: bool, writes: nat, closes: nat)

  const Fresh: Conn := Conn([], false, false, false, 0, 0)

  /** Issue the actions a callback asked for. */
  function Perform(c: Conn, acts: seq<Action>): (d: Conn)
    ensures d.acc == c.acc && d.released == c.released
    decreases |acts|
  {
    if acts == [] then c
    else
      match acts[0]
      case Write(_) => Perform(c.(writePending := true, writes := c.writes + 1), acts[1..])
      case Close => Perform(c.(closing := true, closes := c.closes + 1), acts[1..])
  }

  /** The events the event loop can deliver next: reads until uv_close has
      been called, a write callback for a queued write (also after uv_close,
      which cancels it), and one close callback once uv_close has been called
      and no write is queued. */
  predicate Admissible(c: Conn, e: Event)
  {
    match e
    case Read(nread, chunk) => !c.closing && (nread > 0 ==> |chunk| == nread)
    case WriteDone(_) => c.writePending
    case Closed => c.closing && !c.writePending && !c.released
  }

  /** One callback. As the source has it (`guarded` false), after_uv_write
      closes whatever the status; `guarded` adds the `uv_is_closing` test that
      skips the close when uv_close has already been called. The close
      callback only releases the buffer. */
  function Step(cfg: Config, c: Conn, e: Event, guarded: bool): Conn
    requires Admissible(c, e)
  {
    match e
    case Read(nread, chunk) =>
      var o := HandleRead(cfg, c.acc, nread, chunk);
      Perform(c.(acc := o.acc), o.actions)
    case WriteDone(_) =>
      if guarded && c.closing then c.(writePending := false)
      else Perform(c.(writePending := false), [Close])
    case Closed => c.(released := true)
  }

  /** A sequence of events the event loop can deliver, one after the other. */
  predicate AdmissibleTrace(cfg: Config, c: Conn, events: seq<Event>, guarded: bool)
    decreases |events|
  {
    events == [] ||
    (Admissible(c, events[0]) && AdmissibleTrace(cfg, Step(cfg, c, events[0], guarded), events[1..], guarded))
  }

  function Run(cfg: Config, c: Conn, events: seq<Event>, guarded: bool): Conn
    requires AdmissibleTrace(cfg, c, events, guarded)
    decreases |events|
  {
    if events == [] then c else Run(cfg, Step(cfg, c, events[0], guarded), events[1..], guarded)
  }

  /** What every reachable connection satisfies: at most one write, and once
      it is issued the bytes are spent and nothing more is dispatched. */
  predicate Inv(c: Conn)
  {
    && c.writes <= 1
    && (c.writes == 1 ==> Spent(c.acc))
    && (c.writePending ==> c.writes == 1)
  }

  /** The actions of one read: nothing, one close, or one write. */
  lemma {:induction false} ReadActions(cfg: Config, acc: seq<byte>, nread: int, chunk: seq<byte>)
    requires nread > 0 ==> |chunk| == nread
    ensures var o := HandleRead(cfg, acc, nread, chunk);
            o.actions == [] || o.actions == [Close] || (|o.actions| == 1 && o.actions[0].Write?)
    ensures var o := HandleRead(cfg, acc, nread, chunk);
            nread > 0 && o.actions != [] ==> Spent(o.acc)
    ensures nread > 0 && Spent(acc) ==> HandleRead(cfg, acc, nread, chunk) == Outcome(acc + chunk, [])
    ensures nread <= 0 ==> HandleRead(cfg, acc, nread, chunk).acc == acc
  {
    if nread > 0 {
      var s := acc + chunk;
      if Spent(acc) {
        SpentAppend(acc, chunk);
      }
      match Boundary(s)
      case None =>
      case Some(b) =>
        DispatchSpends(cfg, s);
        DispatchActs(cfg, s[..b]);
    }
  }

  /** Issuing nothing, one close or one write. */
  lemma PerformOne(c: Conn, acts: seq<Action>)
    requires acts == [] || acts == [Close] || (|acts| == 1 && acts[0].Write?)
    ensures acts == [] ==> Perform(c, acts) == c
    ensures acts == [Close] ==> Perform(c, acts) == c.(closing := true, closes := c.closes + 1)
    ensures acts != [] && acts[0].Write? ==> Perform(c, acts) == c.(writePending := true, writes := c.writes + 1)
  {
    if acts != [] {
      assert acts[1..] == [];
    }
  }

  lemma {:induction false} ReadKeepsInv(cfg: Config, c: Conn, nread: int, chunk: seq<byte>, guarded: bool)
    requires Inv(c) && Admissible(c, Read(nread, chunk))
    ensures Inv(Step(cfg, c, Read(nread, chunk), guarded))
  {
    var o := HandleRead(cfg, c.acc, nread, chunk);
    ReadActions(cfg, c.acc, nread, chunk);
    PerformOne(c.(acc := o.acc), o.actions);
    if nread > 0 && c.writes == 1 {
      SpentAppend(c.acc, chunk);
    }
  }

  lemma {:induction false} StepKeepsInv(cfg: Config, c: Conn, e: Event, guarded: bool)
    requires Inv(c) && Admissible(c, e)
    ensures Inv(Step(cfg, c, e, guarded))
  {
    match e {
      case Read(nread, chunk) => ReadKeepsInv(cfg, c, nread, chunk, guarded);
      case WriteDone(_) => PerformOne(c.(writePending := false), [Close]);
      case Closed =>
    }
  }

  /** As written, the write callback closes the connection whatever the
      write status; nothing but the pending flag and the close count change. */
  lemma WriteDoneCloses(cfg: Config, c: Conn, status: int)
    requires c.writePending
    ensures var d := Step(cfg, c, WriteDone(status), false);
            && d.closing && !d.writePending && d.closes == c.closes + 1
            && d.acc == c.acc && d.writes == c.writes && d.released == c.released
  {
    PerformOne(c.(writePending := false), [Close]);
  }

  /** With the guard, the write callback closes the connection, whatever the
      status, unless uv_close has already been called. */
  lemma GuardedWriteDoneCloses(cfg: Config, c: Conn, status: int)
    requires c.writePending
    ensures var d := Step(cfg, c, WriteDone(status), true);
            && d.closing && !d.writePending
            && d.closes == (if c.closing then c.closes else c.closes + 1)
            && d.acc == c.acc && d.writes == c.writes && d.released == c.released
  {
    PerformOne(c.(writePending := false), [Close]);
  }

  /** A connection issues at most one write, whatever the event loop delivers. */
  lemma {:induction false} AtMostOneWrite(cfg: Config, c: Conn, events: seq<Event>, guarded: bool)
    requires Inv(c) && AdmissibleTrace(cfg, c, events, guarded)
    ensures Inv(Run(cfg, c, events, guarded)) && Run(cfg, c, events, guarded).writes <= 1
    decreases |events|
  {
    if events != [] {
      StepKeepsInv(cfg, c, events[0], guarded);
      AtMostOneWrite(cfg, Step(cfg, c, events[0], guarded), events[1..], guarded);
    }
  }

  /** With the guard, exactly one close follows uv_close having been called. */
  predicate CloseInv(c: Conn)
  {
    c.closes == if c.closing then 1 else 0
  }

  lemma {:induction false} GuardedStepKeepsCloseInv(cfg: Config, c: Conn, e: Event)
    requires CloseInv(c) && Admissible(c, e)
    ensures CloseInv(Step(cfg, c, e, true))
  {
    match e {
      case Read(nread, chunk) =>
        var o := HandleRead(cfg, c.acc, nread, chunk);
        ReadActions(cfg, c.acc, nread, chunk);
        PerformOne(c.(acc := o.acc), o.actions);
      case WriteDone(_) => PerformOne(c.(writePending := false), [Close]);
      case Closed =>
    }
  }

  /** With the guard, uv_close is called at most once. */
  lemma {:induction false} AtMostOneClose(cfg: Config, c: Conn, events: seq<Event>)
    requires CloseInv(c) && AdmissibleTrace(cfg, c, events, true)
    ensures CloseInv(Run(cfg, c, events, true)) && Run(cfg, c, events, true).closes <= 1
    decreases |events|
  {
    if events != [] {
      GuardedStepKeepsCloseInv(cfg, c, events[0]);
      AtMostOneClose(cfg, Step(cfg, c, events[0], true), events[1..]);
    }
  }

  /** A complete GET request arriving on a fresh connection is answered by a
      queued write, and nothing is closed yet. */
  lemma {:induction false} RequestOnFresh(cfg: Config, req: Request, rest: seq<byte>)
    requires Printable(req) && NUL !in Target(req) && NUL !in rest
    requires Find(RequestLine(req, rest) + BOUNDARY, BOUNDARY) == Some(|RequestLine(req, rest)|)
    ensures var bytes := RequestLine(req, rest) + BOUNDARY;
            var c := Step(cfg, Fresh, Read(|bytes|, bytes), false);
            c.writePending && c.writes == 1 && !c.closing && c.closes == 0
  {
    var bytes := RequestLine(req, rest) + BOUNDARY;
    RequestDispatched(cfg, req, rest, []);
    assert bytes == RequestLine(req, rest) + BOUNDARY + [] && [] + bytes == bytes;
    var o := HandleRead(cfg, [], |bytes|, bytes);
    assert o.actions == OnRequestGet(cfg, req.path, req.query);
    ExactlyOneWrite(cfg, req.path, req.query);
    PerformOne(Fresh.(acc := o.acc), o.actions);
  }

  /** As written, a read error (the client's end of stream, nread == -1) that
      arrives while the response is being written closes the connection, and
      the write callback then closes it a second time. */
  lemma {:induction false} DoubleClose(cfg: Config, req: Request, rest: seq<byte>)
    requires Printable(req) && NUL !in Target(req) && NUL !in rest
    requires Find(RequestLine(req, rest) + BOUNDARY, BOUNDARY) == Some(|RequestLine(req, rest)|)
    ensures var bytes := RequestLine(req, rest) + BOUNDARY;
            var events := [Read(|bytes|, bytes), Read(-1, []), WriteDone(0)];
            AdmissibleTrace(cfg, Fresh, events, false) && Run(cfg, Fresh, events, false).closes == 2
  {
    var bytes := RequestLine(req, rest) + BOUNDARY;
    var events := [Read(|bytes|, bytes), Read(-1, []), WriteDone(0)];
    RequestOnFresh(cfg, req, rest);
    var c1 := Step(cfg, Fresh, events[0], false);
    PerformOne(c1, [Close]);
    var c2 := Step(cfg, c1, events[1], false);
    assert c2.writePending && c2.closes == 1;
    PerformOne(c2.(writePending := false), [Close]);
    var c3 := Step(cfg, c2, events[2], false);
    assert c3.closes == 2;
    assert events[1..][1..][1..] == [];
    assert AdmissibleTrace(cfg, c2, events[1..][1..], false);
    assert Run(cfg, c2, events[1..][1..], false) == c3;
    assert AdmissibleTrace(cfg, c1, events[1..], false);
    assert Run(cfg, c1, events[1..], false) == c3;
  }

  const HTTP_1_1: seq<byte> := [72, 84, 84, 80, 47, 49, 46, 49]  // "HTTP/1.1"

  /** "GET / HTTP/1.1\r\n\r\n". */
  const ROOT_REQUEST: seq<byte> := [71, 69, 84, 32, 47, 32, 72, 84, 84, 80, 47, 49, 46, 49, 13, 10, 13, 10]

  /** In a header without CR, the first boundary is the one appended to it. */
  lemma {:induction false} BoundaryAfterLine(line: seq<byte>)
    requires CR !in line
    ensures Find(line + BOUNDARY, BOUNDARY) == Some(|line|)
  {
    var s := line + BOUNDARY;
    forall j | 0 <= j < |line|
      ensures !OccursAt(s, BOUNDARY, j)
    {
      assert s[j] == line[j];
    }
    assert s[|line|..] == BOUNDARY;
    FindAt(s, BOUNDARY, |line|);
  }

  /** The root request is a request line for "/" followed by the boundary. */
  lemma RootRequestLine()
    ensures Printable(Request(ROOT, None))
    ensures RequestLine(Request(ROOT, None), HTTP_1_1) + BOUNDARY == ROOT_REQUEST
    ensures Find(ROOT_REQUEST, BOUNDARY) == Some(|RequestLine(Request(ROOT, None), HTTP_1_1)|)
  {
    var line := RequestLine(Request(ROOT, None), HTTP_1_1);
    assert line == [71, 69, 84, 32, 47, 32, 72, 84, 84, 80, 47, 49, 46, 49];
    BoundaryAfterLine(line);
  }

  /** The double close on a concrete input: "GET / HTTP/1.1" and the blank
      line, then a read error while the response is pending, then the write
      callback. */
  lemma DoubleCloseOnRoot(cfg: Config)
    ensures var events := [Read(|ROOT_REQUEST|, ROOT_REQUEST), Read(-1, []), WriteDone(0)];
            AdmissibleTrace(cfg, Fresh, events, false) && Run(cfg, Fresh, events, false).closes == 2
  {
    RootRequestLine();
    DoubleClose(cfg, Request(ROOT, None), HTTP_1_1);
  }
}
