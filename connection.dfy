/** on_uv_read as the C code runs it: on the client's request buffer, writing
    NULs into the buffer's storage and walking a pointer over whitespace. */
module Connection {
  import opened Bytes
  import opened Membuf
  import opened Router
  import opened Framing

  /** tinyweb_on_connection gives every client a request buffer initialised
      with 128 bytes, which the inline storage holds. */
  const REQUEST_BUFFER: nat := 128

  /** A connected client (`uv_tcp_t` with its request `membuf_t` in `data`). */
  class Client {
    const cfg: Config
    const buf: MemBuf
    ghost var Repr: set<object>

    ghost predicate Valid()
      reads this, Repr
    {
      && this in Repr && buf in Repr && buf.Repr <= Repr && this !in buf.Repr
      && Repr == {this} + buf.Repr
      && buf.Valid() && buf.ZeroTail()
    }

    constructor (cfg: Config)
      ensures Valid() && fresh(Repr)
      ensures this.cfg == cfg && buf.contents == [] && buf.IsInline()
      ensures buf.bufferSize == INLINE_CAPACITY && buf.ZeroTail()
    {
      this.cfg := cfg;
      buf := new MemBuf.Init(REQUEST_BUFFER);
      new;
      Repr := {this} + buf.Repr;
    }

    /** `*p = '\0'` for a byte of the request buffer. */
    method WriteNul(i: nat)
      requires Valid() && i < buf.size
      modifies buf, buf.data
      ensures Valid() && Repr == old(Repr)
      ensures buf.data == old(buf.data) && buf.size == old(buf.size)
      ensures buf.contents == old(buf.contents)[i := NUL]
      ensures buf.data[..] == old(buf.data[..])[i := NUL]
    {
      buf.data[i] := NUL;
      buf.contents := buf.contents[i := NUL];
    }

    /** on_uv_read: append a positive read and frame it, close on -1, and do
        nothing otherwise. The boundary search runs over the bytes received,
        up to the first NUL; the request line is cut by writing NULs into the
        buffer. What it does is exactly `Framing.HandleRead`. */
    method OnUvRead(nread: int, chunk: seq<byte>) returns (acts: seq<Action>)
      requires Valid()
      requires nread > 0 ==> |chunk| == nread && buf.size + nread <= MAX_DATA_SIZE
      modifies Repr
      ensures Valid() && fresh(Repr - old(Repr))
      ensures var o := HandleRead(cfg, old(buf.contents), nread, chunk);
              buf.contents == o.acc && acts == o.actions
    {
      if nread > 0 {
        var _ := buf.AppendData(chunk);
        Repr := {this} + buf.Repr;
        acts := Frame();
      } else if nread == -1 {
        acts := [Close];
      } else {
        acts := [];
      }
    }

    /** The part of on_uv_read after membuf_append_data. */
    method Frame() returns (acts: seq<Action>)
      requires Valid()
      modifies buf, buf.data
      ensures Valid() && Repr == old(Repr)
      ensures OnAppended(cfg, old(buf.contents)) == Outcome(buf.contents, acts)
    {
      ghost var acc := buf.contents;
      var found := Boundary(buf.data[..buf.size]);
      if found.None? {
        return [];
      }
      var b := found.value;
      WriteNul(b);
      if buf.data[0] == 71 && buf.data[1] == 69 && buf.data[2] == 84 {
        assert b >= 3 by {
          assert buf.data[b] == NUL;
        }
        assert acc[..b][..3] == buf.data[..3];
        acts := Route(acc, b);
      } else {
        assert !(GET <= acc[..b]) by {
          if b >= 3 {
            assert acc[..b][..3] == buf.data[..3];
          }
        }
        acts := [Close];
      }
    }

    /** `while(isspace(*pathinfo)) pathinfo++` from just after "GET". */
    method SkipWhitespace(b: nat, ghost h: seq<byte>) returns (p: nat)
      requires Valid() && 3 <= b < buf.size && |h| == b
      requires buf.data[..b] == h && buf.data[b] == NUL
      ensures p == SkipSpaces(h, 3)
    {
      p := 3;
      while IsSpace(buf.data[p])
        invariant 3 <= p <= b && SkipSpaces(h, p) == SkipSpaces(h, 3)
        decreases b - p
      {
        assert buf.data[p] == h[p];
        p := p + 1;
      }
      if p < b {
        assert buf.data[p] == h[p];
      }
    }

    /** The GET branch of on_uv_read: cut the path at the first space and at
        the first '?' and hand it to tinyweb_on_request_get. */
    method Route(ghost acc: seq<byte>, b: nat) returns (acts: seq<Action>)
      requires Valid() && Boundary(acc) == Some(b) && GET <= acc[..b]
      requires buf.contents == acc[b := NUL]
      modifies buf, buf.data
      ensures Valid() && Repr == old(Repr)
      ensures buf.contents == Marked(acc, b) && acts == Dispatch(cfg, acc[..b])
    {
      ghost var h := acc[..b];
      assert buf.data[..b] == h;
      var p := SkipWhitespace(b, h);
      var stop := CutTarget(p, b, h);
      acts := RouteQuery(acc, b, p, stop);
    }

    /** The rest of the GET branch, once the target is cut at `stop`: split off
        the query and dispatch. */
    method RouteQuery(ghost acc: seq<byte>, b: nat, p: nat, stop: nat) returns (acts: seq<Action>)
      requires Valid() && b < |acc| && NUL !in acc[..b] && GET <= acc[..b] && b < buf.size
      requires p == SkipSpaces(acc[..b], 3) && stop == TargetEnd(acc[..b], p)
      requires buf.contents == if stop < b then acc[b := NUL][stop := NUL] else acc[b := NUL]
      requires buf.data[p..stop] == acc[..b][p..stop]
      modifies buf, buf.data
      ensures Valid() && Repr == old(Repr)
      ensures buf.contents == Marked(acc, b) && acts == Dispatch(cfg, acc[..b])
    {
      ghost var cut := buf.contents;
      var pathEnd, query := CutQuery(p, stop, acc[..b]);
      var path := buf.data[p..pathEnd];
      QueryCut(cfg, acc, b, p, stop, cut, buf.contents, pathEnd, path, query);
      acts := OnRequestGet(cfg, path, query);
    }

    /** `end = strchr(pathinfo, ' '); if(end) *end = '\0';` */
    method CutTarget(p: nat, b: nat, ghost h: seq<byte>) returns (stop: nat)
      requires Valid() && p <= b < buf.size && |h| == b
      requires buf.data[p..b] == h[p..]
      modifies buf, buf.data
      ensures Valid() && Repr == old(Repr)
      ensures buf.data == old(buf.data) && buf.size == old(buf.size)
      ensures stop == TargetEnd(h, p)
      ensures buf.contents == if stop < b then old(buf.contents)[stop := NUL] else old(buf.contents)
      ensures buf.data[p..stop] == h[p..stop]
    {
      var end := IndexOf(buf.data[p..b], SP);
      stop := b;
      if end.Some? {
        stop := p + end.value;
        assert buf.data[p..stop] == buf.data[p..b][..stop - p];
        assert h[p..stop] == h[p..][..stop - p];
        WriteNul(stop);
      }
      assert buf.data[p..stop] == h[p..stop];
    }

    /** `query_stirng = strchr(pathinfo, '?')`, cut there when present. */
    method CutQuery(p: nat, stop: nat, ghost h: seq<byte>) returns (pathEnd: nat, query: Option<seq<byte>>)
      requires Valid() && p <= stop <= |h| && stop < buf.size
      requires buf.data[p..stop] == h[p..stop]
      modifies buf, buf.data
      ensures Valid() && Repr == old(Repr)
      ensures buf.data == old(buf.data) && buf.size == old(buf.size)
      ensures var mark := QueryMark(h, p, stop);
              && pathEnd == (if mark.Some? then mark.value else stop)
              && query == (if mark.Some? then Some(h[mark.value + 1..stop]) else None)
              && buf.contents == (if mark.Some? then old(buf.contents)[mark.value := NUL] else old(buf.contents))
      ensures p <= pathEnd <= stop && buf.data[p..pathEnd] == h[p..pathEnd]
    {
      var q := IndexOf(buf.data[p..stop], QUESTION);
      pathEnd := stop;
      query := None;
      if q.Some? {
        pathEnd := p + q.value;
        ghost var d := buf.data[..];
        SlicesAround(d, h, p, pathEnd, stop);
        query := Some(buf.data[pathEnd + 1..stop]);
        WriteNul(pathEnd);
        assert buf.data[p..pathEnd] == d[pathEnd := NUL][p..pathEnd];
      }
    }
  }

  /** Cutting `d[p..stop]`, a copy of `h[p..stop]`, at `m` leaves copies on
      both sides, even after a NUL is written at `m`. */
  lemma SlicesAround(d: seq<byte>, h: seq<byte>, p: nat, m: nat, stop: nat)
    requires p <= m < stop <= |d| && stop <= |h| && d[p..stop] == h[p..stop]
    ensures d[m + 1..stop] == h[m + 1..stop] && d[m := NUL][p..m] == h[p..m]
  {
    assert d[m + 1..stop] == d[p..stop][m + 1 - p..];
    assert h[m + 1..stop] == h[p..stop][m + 1 - p..];
    assert d[m := NUL][p..m] == d[p..stop][..m - p];
    assert h[p..m] == h[p..stop][..m - p];
  }

  /** The scan of a GET header once its target has been found. */
  lemma LineAt(acc: seq<byte>, b: nat, p: nat, stop: nat)
    requires b < |acc| && NUL !in acc[..b] && GET <= acc[..b]
    requires p == SkipSpaces(acc[..b], 3) && stop == TargetEnd(acc[..b], p)
    ensures var h := acc[..b];
            var mark := QueryMark(h, p, stop);
            && b < |acc| && NUL !in h
            && ScanLine(h) == Some(Line(p, stop, mark))
            && RequestAt(h, Line(p, stop, mark))
                 == Request(h[p..if mark.Some? then mark.value else stop], if mark.Some? then Some(h[mark.value + 1..stop]) else None)
  {
  }

  /** What is left of on_uv_read once the target is cut at `stop` and the
      query split off: the bytes are as Marked says and the request to
      dispatch is the one Dispatch hands on. */
  lemma QueryCut(cfg: Config, acc: seq<byte>, b: nat, p: nat, stop: nat, cut: seq<byte>,
                 contents: seq<byte>, pathEnd: nat, path: seq<byte>, query: Option<seq<byte>>)
    requires b < |acc| && NUL !in acc[..b] && GET <= acc[..b]
    requires p == SkipSpaces(acc[..b], 3) && stop == TargetEnd(acc[..b], p)
    requires cut == if stop < b then acc[b := NUL][stop := NUL] else acc[b := NUL]
    requires var mark := QueryMark(acc[..b], p, stop);
             && pathEnd == (if mark.Some? then mark.value else stop)
             && query == (if mark.Some? then Some(acc[..b][mark.value + 1..stop]) else None)
             && contents == (if mark.Some? then cut[mark.value := NUL] else cut)
    requires p <= pathEnd <= stop && path == acc[..b][p..pathEnd]
    ensures NUL !in path && (query.Some? ==> NUL !in query.value)
    ensures contents == Marked(acc, b)
    ensures OnRequestGet(cfg, path, query) == Dispatch(cfg, acc[..b])
  {
    LineAt(acc, b, p, stop);
    ScannedLine(cfg, acc, b, Line(p, stop, QueryMark(acc[..b], p, stop)));
  }

  /** Marked and Dispatch for a header whose scan gives `l`. */
  lemma ScannedLine(cfg: Config, acc: seq<byte>, b: nat, l: Line)
    requires b < |acc| && NUL !in acc[..b] && ScanLine(acc[..b]) == Some(l)
    ensures var acc2 := if l.stop < b then acc[b := NUL][l.stop := NUL] else acc[b := NUL];
            Marked(acc, b) == if l.question.Some? then acc2[l.question.value := NUL] else acc2
    ensures var req := RequestAt(acc[..b], l);
            Dispatch(cfg, acc[..b]) == OnRequestGet(cfg, req.path, req.query)
  {
  }

  // ---- The search as written ----

  /** What `strstr(membuf->data, ...)` scans as written: the storage up to its
      first NUL (Some of the NUL's index), or, when the storage holds no NUL,
      on past its end (None). */
  function StorageScan(storage: seq<byte>): (r: Option<nat>)
    ensures r.Some? ==> r.value < |storage| && storage[r.value] == NUL && NUL !in storage[..r.value]
    ensures r.None? <==> NUL !in storage
  {
    if NUL in storage then Some(StrLen(storage)) else None
  }

  /** A request that exactly fills a fresh client's inline storage without a
      NUL: after the read, strstr finds no terminator in the storage and reads
      past it. */
  method OverRead() returns (reach: Option<nat>)
    ensures reach == None
  {
    var b := new MemBuf.Init(REQUEST_BUFFER);
    var _ := b.AppendData(seq(INLINE_CAPACITY, _ => 65));
    assert b.bufferSize == b.size == INLINE_CAPACITY;
    assert b.data[..b.bufferSize] == b.contents;
    reach := StorageScan(b.data[..b.bufferSize]);
  }

  /** When a NUL follows the bytes received (the zero tail), the scan as written
      and the bounded search over the bytes received see the same C string. */
  lemma {:induction false} BoundedScanAgrees(storage: seq<byte>, size: nat)
    requires size < |storage| && storage[size] == NUL
    ensures CString(storage) == CString(storage[..size])
    ensures Find(CString(storage), BOUNDARY) == Boundary(storage[..size])
  {
    assert storage == storage[..size] + storage[size..];
    CStringAppend(storage[..size], storage[size..]);
    if NUL !in storage[..size] {
      assert CString(storage[size..]) == [];
      assert CString(storage[..size]) == storage[..size];
    }
  }

  /** For every client whose storage is not full, the scan as written sees
      exactly what the bounded search over the bytes received sees. */
  lemma ClientScanAgrees(c: Client)
    requires c.Valid() && c.buf.size < c.buf.bufferSize
    ensures Find(CString(c.buf.data[..]), BOUNDARY) == Boundary(c.buf.contents)
  {
    assert c.buf.data[..][..c.buf.size] == c.buf.contents;
    BoundedScanAgrees(c.buf.data[..], c.buf.size);
  }
}
