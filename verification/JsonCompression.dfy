/** The response writer that compresses larger JSON bodies (cmd/http_compression.go). Writes to the connection
    are taken to succeed; gzip is a coder that is handed the payload. */
module JsonCompression {
  import opened Common

  // ---- Negotiation ----

  datatype Coding = Gzip | Identity | Wildcard

  /** An entry of Accept-Encoding that matters, its quality already parsed (0 if malformed). */
  datatype Entry = Entry(coding: Coding, quality: real)

  datatype Encodings = Encodings(gzip: real, identity: real, explicitIdentity: bool)

  /** The quality given last for a coding. */
  function Given(entries: seq<Entry>, coding: Coding): Option<real> {
    if entries == [] then None
    else if entries[|entries| - 1].coding == coding then Some(entries[|entries| - 1].quality)
    else Given(entries[..|entries| - 1], coding)
  }

  ghost predicate Qualities(entries: seq<Entry>) {
    forall e :: e in entries ==> 0.0 <= e.quality <= 1.0
  }

  /** A coding is acceptable with the quality given for it, or with that of `*`. */
  function QualityOf(entries: seq<Entry>, coding: Coding): real {
    match Given(entries, coding)
    case Some(q) => q
    case None => if Given(entries, Wildcard).Some? then Given(entries, Wildcard).value else 0.0
  }

  /** Identity is forbidden only by `identity;q=0`, or by `*;q=0` without an entry for identity
      (section 12.5.3 of RFC 9110). */
  ghost predicate IdentityForbidden(entries: seq<Entry>) {
    Given(entries, Identity) == Some(0.0) || (Given(entries, Identity).None? && Given(entries, Wildcard) == Some(0.0))
  }

  lemma {:induction false} GivenInRange(entries: seq<Entry>, coding: Coding)
    requires Qualities(entries)
    ensures Given(entries, coding).Some? ==> 0.0 <= Given(entries, coding).value <= 1.0
  {
    if entries != [] {
      assert entries[|entries| - 1] in entries;
      assert forall e :: e in entries[..|entries| - 1] ==> e in entries;
      GivenInRange(entries[..|entries| - 1], coding);
    }
  }

  method ParseResponseEncodings(entries: seq<Entry>) returns (e: Encodings)
    requires Qualities(entries)
    ensures e.gzip == QualityOf(entries, Gzip)
    ensures e.identity == 0.0 <==> IdentityForbidden(entries)
    ensures e.explicitIdentity <==> Given(entries, Identity).Some?
    ensures e.explicitIdentity ==> e.identity == Given(entries, Identity).value
  {
    var explicit, wildcard, identity := -1.0, -1.0, -1.0;
    for i := 0 to |entries|
      invariant explicit == Or(Given(entries[..i], Gzip), -1.0)
      invariant wildcard == Or(Given(entries[..i], Wildcard), -1.0)
      invariant identity == Or(Given(entries[..i], Identity), -1.0)
    {
      assert entries[..i + 1][..i] == entries[..i];
      match entries[i].coding {
        case Wildcard => wildcard := entries[i].quality;
        case Identity => identity := entries[i].quality;
        case Gzip => explicit := entries[i].quality;
      }
    }
    assert entries[..|entries|] == entries;
    GivenInRange(entries, Gzip);
    GivenInRange(entries, Wildcard);
    GivenInRange(entries, Identity);
    e := Encodings(if explicit > 0.0 then explicit else 0.0, 1.0, identity >= 0.0);
    if explicit < 0.0 && wildcard > 0.0 {
      e := e.(gzip := wildcard);
    }
    if identity >= 0.0 {
      e := e.(identity := identity);
    } else if wildcard == 0.0 {
      e := e.(identity := 0.0);
    }
  }

  function Or(x: Option<real>, otherwise: real): real {
    if x.Some? then x.value else otherwise
  }

  /** HEAD requests, range requests and clients that do not prefer gzip are left alone. */
  predicate DisabledFor(e: Encodings, head: bool, range: bool) {
    head || range || !PrefersGzip(e)
  }

  predicate PrefersGzip(e: Encodings) {
    e.gzip > 0.0 && (!e.explicitIdentity || e.gzip >= e.identity)
  }

  // ---- Headers ----

  /** The header fields the writer looks at or changes. */
  datatype Header = Header(
    contentEncoding: string, contentRange: bool, etag: bool, trailer: bool, noTransform: bool, json: bool,
    contentLength: Option<nat>, varies: bool)

  const OK: nat := 200
  const NOT_ACCEPTABLE: nat := 406
  const SWITCHING_PROTOCOLS: nat := 101

  predicate Bodiless(status: nat) {
    status < 200 || status == 204 || status == 205 || status == 304
  }

  predicate CompressibleWith(disabled: bool, status: nat, h: Header) {
    && !disabled && !Bodiless(status) && status != 206
    && h.contentEncoding == "" && !h.contentRange && !h.etag && !h.trailer && !h.noTransform && h.json
  }

  /** What goes out when the response is compressed, sent as it is, or refused. */
  function Compressed(h: Header): Header {
    h.(contentEncoding := "gzip", contentLength := None, varies := true)
  }

  function Plain(h: Header): Header {
    h.(varies := true)
  }

  function Refused(h: Header): Header {
    h.(contentRange := false, etag := false, trailer := false, json := false, contentLength := Some(0), varies := true)
  }

  /** The size from which a body is worth compressing. */
  const MINIMUM: nat := 1024

  // ---- The writer ----

  /** What has reached the connection. */
  datatype Wire =
      Wire(informational: seq<nat>, head: Option<(nat, Header)>, plain: seq<Byte>, coded: seq<Byte>, closed: bool)

  class JsonCompressionWriter {
    var header: Header
    var wire: Wire
    var status: nat
    var committed: bool
    const disabled: bool
    const identityForbidden: bool
    const gzipRequired: bool
    const head: bool
    var rejected: bool
    var frozenHeader: Option<Header>
    var pending: seq<Byte>
    var gzip: bool

    /** For the proof: everything written, the header and status when they were decided, and whether the
        handler has flushed or finished. */
    ghost var written: seq<Byte>
    ghost var decided: Option<(nat, Header)>
    ghost var pushed: bool

    ghost predicate MustRefuse(s: nat, h: Header) {
      identityForbidden && !head && !Bodiless(s) && h.contentEncoding == "" && !CompressibleWith(disabled, s, h)
    }

    /** Nothing but informational responses goes out before the header does. */
    ghost predicate Untouched()
      reads this
    {
      wire.head.None? && wire.plain == [] && wire.coded == [] && !wire.closed && !gzip && !rejected
    }

    /** The one header sent belongs to the decision and to the coding of the body. */
    ghost predicate HeadFits()
      reads this
      requires decided.Some?
    {
      var (s, h) := decided.value;
      && (rejected <==> MustRefuse(s, h))
      && (gzip ==> CompressibleWith(disabled, s, h) && wire.plain == [])
      && (!gzip ==> wire.coded == [])
      && wire.head
        == Some(if rejected then (NOT_ACCEPTABLE, Refused(h)) else if gzip then (s, Compressed(h)) else (s, Plain(h)))
      && (gzipRequired && CompressibleWith(disabled, s, h) ==> gzip)
      && (!pushed && CompressibleWith(disabled, s, h) && !gzipRequired ==> gzip && |written| >= MINIMUM)
    }

    ghost predicate Valid()
      reads this
    {
      && (gzipRequired ==> identityForbidden) && (identityForbidden && !disabled ==> gzipRequired)
      && (status == 0 <==> decided.None?)
      && (decided.None? ==> !committed && frozenHeader.None? && pending == [] && written == [] && !pushed)
      && (decided.Some? && !committed ==>
            && frozenHeader == Some(decided.value.1) && status == decided.value.0 && !pushed
            && CompressibleWith(disabled, status, decided.value.1) && pending == written && |pending| < MINIMUM)
      && (!committed ==> Untouched())
      && (committed ==> decided.Some? && frozenHeader.None? && pending == [] && HeadFits())
      && (committed ==> wire.plain + wire.coded == if rejected then [] else written)
    }

    constructor (e: Encodings, head: bool, range: bool, header: Header)
      requires e.gzip >= 0.0 && e.identity >= 0.0
      ensures Valid() && written == [] && this.header == header.(varies := true) && !wire.closed && !pushed
      ensures decided.None? && wire.informational == []
      ensures identityForbidden <==> e.identity == 0.0
      ensures this.head == head && disabled == DisabledFor(e, head, range)
      ensures gzipRequired == (e.identity == 0.0 && e.gzip > 0.0)
    {
      this.header, this.head := header.(varies := true), head;
      wire := Wire([], None, [], [], false);
      status, committed, rejected, frozenHeader, pending, gzip := 0, false, false, None, [], false;
      disabled := head || range || !PrefersGzip(e);
      identityForbidden := e.identity == 0.0;
      gzipRequired := e.identity == 0.0 && e.gzip > 0.0;
      written, decided, pushed := [], None, false;
    }

    function ResponseHeader(): Header
      reads this
    {
      if frozenHeader.Some? then frozenHeader.value else header
    }

    predicate Compressible()
      reads this
    {
      CompressibleWith(disabled, status, ResponseHeader())
    }

    /** The handler changes the header map between calls. */
    method EditHeader(h: Header)
      requires Valid()
      modifies this`header
      ensures Valid() && header == h
    {
      header := h;
    }

    /** Sends the header once, and what was held back. */
    method Commit(compress: bool)
      requires decided.Some? && !committed && wire.head.None? && wire.plain == []
      requires wire.coded == [] && !gzip && status != 0
      modifies this
      ensures committed && frozenHeader.None? && pending == []
      ensures gzip == compress && rejected == old(rejected) && status == old(status)
      ensures wire == old(wire).(
        head := Some((status, if compress then Compressed(old(ResponseHeader())) else Plain(old(ResponseHeader())))),
        plain := if compress then [] else old(pending), coded := if compress then old(pending) else [])
      ensures written == old(written) && decided == old(decided) && pushed == old(pushed)
    {
      var h := ResponseHeader();
      h := h.(varies := true);
      if compress {
        gzip := true;
        h := h.(contentEncoding := "gzip", contentLength := None);
      }
      header, frozenHeader := h, None;
      committed := true;
      wire := wire.(head := Some((status, h)));
      if |pending| != 0 {
        Output(pending);
        pending := [];
      }
    }

    method Output(data: seq<Byte>)
      modifies this`wire
      ensures wire == if gzip then old(wire).(coded := old(wire).coded + data)
        else old(wire).(plain := old(wire).plain + data)
    {
      if gzip {
        wire := wire.(coded := wire.coded + data);
      } else {
        wire := wire.(plain := wire.plain + data);
      }
    }

    /** Only the first final status counts. The header is frozen here, or sent if there is nothing to compress. */
    method WriteHeader(s: nat)
      requires Valid() && 100 <= s <= 999
      modifies this
      ensures Valid() && written == old(written)
      ensures wire.closed == old(wire.closed)
      ensures old(decided.Some?) || (s < OK && s != SWITCHING_PROTOCOLS) ==>
        decided == old(decided) && pushed == old(pushed) && committed == old(committed)
      ensures old(decided.None?) && (s >= OK || s == SWITCHING_PROTOCOLS) ==>
        decided == Some((s, old(header))) && !pushed
      ensures wire.informational == old(wire).informational
        + if old(decided).None? && s < OK && s != SWITCHING_PROTOCOLS then [s] else []
      ensures decided.None? ==> header == old(header)
    {
      if committed || status != 0 {
        return;
      }
      if s < OK && s != SWITCHING_PROTOCOLS {
        wire := wire.(informational := wire.informational + [s]);
        return;
      }
      status := s;
      decided := Some((s, header));
      if s == SWITCHING_PROTOCOLS || !Compressible() {
        if identityForbidden && !head && !Bodiless(s) && header.contentEncoding == "" {
          rejected := true;
          status := NOT_ACCEPTABLE;
          header :=
            header.(json := false, contentRange := false, etag := false, trailer := false, contentLength := Some(0));
        }
        Commit(false);
        return;
      }
      frozenHeader := Some(header);
    }

    method Write(data: seq<Byte>) returns (n: nat)
      requires Valid() && !wire.closed
      modifies this
      ensures wire.informational == old(wire).informational
      ensures Valid() && written == old(written) + data && n == |data| && !wire.closed
      ensures decided == if old(decided).Some? then old(decided) else Some((OK, old(header)))
      ensures pushed == old(pushed)
    {
      if status == 0 {
        WriteHeader(OK);
      }
      written := written + data;
      if rejected {
        return |data|;
      }
      if !committed {
        var eligible := Compressible();
        if eligible && !gzipRequired && |pending| + |data| < MINIMUM {
          pending := pending + data;
          return |data|;
        }
        Commit(eligible);
      }
      Output(data);
      n := |data|;
    }

    /** Copies a reader's chunks; a response already committed uncoded takes them directly. */
    method ReadFrom(chunks: seq<seq<Byte>>) returns (n: nat)
      requires Valid() && !wire.closed
      modifies this
      ensures wire.informational == old(wire).informational
      ensures Valid() && written == old(written) + Concat(chunks) && n == |Concat(chunks)| && !wire.closed
      ensures decided == if old(decided).Some? then old(decided) else Some((OK, old(header)))
      ensures pushed == old(pushed)
    {
      if status == 0 {
        WriteHeader(OK);
      }
      if rejected {
        written := written + Concat(chunks);
        return |Concat(chunks)|;
      }
      if committed && !gzip {
        written := written + Concat(chunks);
        Output(Concat(chunks));
        return |Concat(chunks)|;
      }
      n := CopyThroughWrite(chunks);
    }

    method CopyThroughWrite(chunks: seq<seq<Byte>>) returns (n: nat)
      requires Valid() && !wire.closed && decided.Some?
      modifies this
      ensures wire.informational == old(wire).informational
      ensures Valid() && written == old(written) + Concat(chunks) && n == |Concat(chunks)| && !wire.closed
      ensures decided == old(decided) && pushed == old(pushed)
    {
      hide Valid;
      n := 0;
      ghost var before, decision, push, early := written, decided, pushed, wire.informational;
      for i := 0 to |chunks|
        invariant wire.informational == early
        invariant Valid() && !wire.closed && written == before + Concat(chunks[..i]) && n == |Concat(chunks[..i])|
        invariant decided == decision && pushed == push
      {
        assert chunks[..i + 1][..i] == chunks[..i];
        var k := Write(chunks[i]);
        n := n + k;
      }
      assert chunks[..|chunks|] == chunks;
    }

    method FlushError()
      requires Valid() && !wire.closed
      modifies this
      ensures wire.informational == old(wire).informational
      ensures Valid() && committed && written == old(written) && !wire.closed
      ensures decided == if old(decided).Some? then old(decided) else Some((OK, old(header)))
    {
      if status == 0 {
        WriteHeader(OK);
      }
      if !committed {
        Commit(gzipRequired && Compressible());
        pushed := true;
      }
    }

    /** Ends the response. Without an early flush a compressible body is compressed exactly from the minimum size on. */
    method Finish()
      requires Valid() && !wire.closed
      modifies this
      ensures wire.informational == old(wire).informational
      ensures Valid() && committed && written == old(written) && decided.Some?
      ensures decided == if old(decided).Some? then old(decided) else Some((OK, old(header)))
      ensures !old(pushed) && !gzipRequired && CompressibleWith(disabled, decided.value.0, decided.value.1) ==>
        (gzip <==> |written| >= MINIMUM)
      ensures gzip ==> wire.closed
    {
      if status == 0 {
        WriteHeader(OK);
      }
      if !committed {
        Commit(gzipRequired && Compressible());
        pushed := true;
      }
      if gzip {
        wire := wire.(closed := true);
      }
    }

    /** What a committed response looks like on the wire. */
    lemma Outcome()
      requires Valid() && committed && decided.Some?
      ensures rejected <==> MustRefuse(decided.value.0, decided.value.1)
      ensures rejected ==>
        wire.head == Some((NOT_ACCEPTABLE, Refused(decided.value.1))) && wire.plain == [] && wire.coded == [] && !gzip
      ensures !rejected && gzip ==>
        wire.head == Some((decided.value.0, Compressed(decided.value.1))) && wire.plain == [] && wire.coded == written
      ensures !rejected && !gzip ==>
        wire.head == Some((decided.value.0, Plain(decided.value.1))) && wire.plain == written && wire.coded == []
      ensures gzip ==> CompressibleWith(disabled, decided.value.0, decided.value.1)
      ensures gzipRequired && CompressibleWith(disabled, decided.value.0, decided.value.1) ==> gzip
      ensures identityForbidden && !disabled ==> gzipRequired
    {
      assert wire.plain + [] == wire.plain && [] + wire.coded == wire.coded;
    }
  }

  function Concat(chunks: seq<seq<Byte>>): seq<Byte> {
    if chunks == [] then [] else Concat(chunks[..|chunks| - 1]) + chunks[|chunks| - 1]
  }

  // ---- Whole responses ----

  /** What a handler may do with the writer. */
  datatype Call =
    | CallWriteHeader(status: nat) | CallWrite(data: seq<Byte>) | CallReadFrom(chunks: seq<seq<Byte>>) | CallFlush
      | CallEdit(header: Header)

  function BytesOf(c: Call): seq<Byte> {
    match c
    case CallWrite(data) => data
    case CallReadFrom(chunks) => Concat(chunks)
    case _ => []
  }

  function Payload(calls: seq<Call>): seq<Byte> {
    if calls == [] then [] else Payload(calls[..|calls| - 1]) + BytesOf(calls[|calls| - 1])
  }

  /** What one call does to the decision, the header map and the informational responses sent. */
  ghost predicate Taken(c: Call, decided: Option<(nat, Header)>, now: Header, early: seq<nat>,
      decided': Option<(nat, Header)>, now': Header, early': seq<nat>) {
    && early' == early + (match c
         case CallWriteHeader(s) => if decided.None? && s < OK && s != SWITCHING_PROTOCOLS then [s] else []
         case _ => [])
    && if decided.Some? then decided' == decided else
         match c
         case CallWriteHeader(s) =>
           if s < OK && s != SWITCHING_PROTOCOLS then decided' == None && now' == now else decided' == Some((s, now))
         case CallEdit(h) => decided' == None && now' == h
         case _ => decided' == Some((OK, now))
  }

  /** The writer takes one call of the handler. */
  method Take(w: JsonCompressionWriter, c: Call)
    requires w.Valid() && !w.wire.closed && (c.CallWriteHeader? ==> 100 <= c.status <= 999)
    modifies w
    ensures w.Valid() && !w.wire.closed && w.written == old(w.written) + BytesOf(c)
    ensures !c.CallFlush? && !old(w.pushed) ==> !w.pushed
    ensures Taken(c, old(w.decided), old(w.header), old(w.wire.informational), w.decided, w.header,
      w.wire.informational)
  {
    hide w.Valid;
    hide Concat;
    match c {
      case CallWriteHeader(s) => w.WriteHeader(s);
      case CallWrite(data) => var n := w.Write(data);
      case CallReadFrom(chunks) => var n := w.ReadFrom(chunks);
      case CallFlush => w.FlushError();
      case CallEdit(h) => w.EditHeader(h);
    }
  }

  /** A response that may only go out coded, unless the handler has coded it or it has no body. */
  ghost predicate NeedsCoding(e: Encodings, head: bool, status: nat, h: Header) {
    e.identity == 0.0 && !head && !Bodiless(status) && h.contentEncoding == ""
  }

  /** The call settles status and header: a final status, or anything that sends a body or flushes. */
  ghost predicate Decides(c: Call) {
    !c.CallEdit? && (c.CallWriteHeader? ==> c.status >= 200 || c.status == 101)
  }

  /** The header as the handler left it last. */
  ghost function HeaderAfter(header: Header, calls: seq<Call>): Header {
    if calls == [] then header
    else if calls[|calls| - 1].CallEdit? then calls[|calls| - 1].header
    else HeaderAfter(header, calls[..|calls| - 1])
  }

  /** The informational statuses given, in order. */
  ghost function Informed(calls: seq<Call>): seq<nat> {
    if calls == [] then [] else
      var last := calls[|calls| - 1];
      Informed(calls[..|calls| - 1]) + if last.CallWriteHeader? && !Decides(last) then [last.status] else []
  }

  /** No call before `k` decides, and `k` does unless it is past the end. */
  ghost predicate DecidesFirst(calls: seq<Call>, k: nat) {
    k <= |calls| && (forall j :: 0 <= j < k ==> !Decides(calls[j])) && (k < |calls| ==> Decides(calls[k]))
  }

  /** Status and header are those of the first deciding call; without one the handler's end stands for status 200. */
  ghost predicate IsDecision(header: Header, calls: seq<Call>, k: nat, decided: (nat, Header), early: seq<nat>) {
    && DecidesFirst(calls, k) && early == Informed(calls[..k])
    && decided.0 == (if k < |calls| && calls[k].CallWriteHeader? then calls[k].status else 200)
    && decided.1 == HeaderAfter(header.(varies := true), calls[..k])
  }

  /** Where a response stands after some calls: nothing decided yet, or decided by call `k`. */
  ghost predicate InStep(header: Header, calls: seq<Call>, k: nat, decided: Option<(nat, Header)>, now: Header,
      early: seq<nat>) {
    match decided
    case None =>
      && k == |calls| && DecidesFirst(calls, k)
      && now == HeaderAfter(header.(varies := true), calls) && early == Informed(calls)
    case Some(d) => k < |calls| && IsDecision(header, calls, k, d, early)
  }

  lemma NothingDecided(header: Header)
    ensures InStep(header, [], 0, None, header.(varies := true), [])
  {}

  /** One call more, as the writer takes it. */
  lemma StepGoesOn(header: Header, calls: seq<Call>, i: nat, k: nat, decided: Option<(nat, Header)>, now: Header,
      early: seq<nat>, decided': Option<(nat, Header)>, now': Header, early': seq<nat>) returns (k': nat)
    requires i < |calls| && InStep(header, calls[..i], k, decided, now, early)
    requires Taken(calls[i], decided, now, early, decided', now', early')
    ensures InStep(header, calls[..i + 1], k', decided', now', early')
  {
    var (front, more) := (calls[..i], calls[..i + 1]);
    assert more[..i] == front;
    k' := if decided.None? && decided'.None? then i + 1 else k;
    if decided.Some? {
      assert more[..k] == front[..k];
    } else if decided'.Some? {
      assert k == i && more[..k] == front && front[..k] == front;
    } else {
      assert more[..k'] == more;
      forall j | 0 <= j < k'
        ensures !Decides(more[j])
      {
        if j < i {
          assert more[j] == front[j];
        }
      }
    }
  }

  /** The end of the handler decides if nothing else has. */
  lemma StepEnds(header: Header, calls: seq<Call>, k: nat, decided: Option<(nat, Header)>, now: Header, early: seq<nat>,
      d: (nat, Header))
    requires InStep(header, calls, k, decided, now, early)
    requires d == if decided.Some? then decided.value else (OK, now)
    ensures IsDecision(header, calls, k, d, early)
  {
    if decided.None? {
      assert calls[..k] == calls;
    }
  }

  /** Status and header allow a coding, said field by field. */
  ghost predicate CodingFits(e: Encodings, head: bool, range: bool, status: nat, h: Header) {
    && !head && !range && e.gzip > 0.0 && (e.explicitIdentity ==> e.identity <= e.gzip)
    && status >= 200 && status != 204 && status != 205 && status != 206 && status != 304
    && h.json && h.contentEncoding == "" && !h.contentRange && !h.etag && !h.trailer && !h.noTransform
  }

  lemma CodingFitsExactly(e: Encodings, head: bool, range: bool, status: nat, h: Header)
    ensures CompressibleWith(DisabledFor(e, head, range), status, h) <==> CodingFits(e, head, range, status, h)
  {}

  /** Any sequence of calls followed by the end of the handler: informational responses in order, then one header,
      decided by the first final status or write; the whole payload in order in one coding, or nothing at all if
      the response is refused; and never an uncoded body where identity is forbidden. */
  method Respond(e: Encodings, head: bool, range: bool, header: Header, calls: seq<Call>)
    returns (wire: Wire, ghost k: nat, ghost decided: (nat, Header), ghost refused: bool, ghost coded: bool)
    requires e.gzip >= 0.0 && e.identity >= 0.0
    requires forall c :: c in calls && c.CallWriteHeader? ==> 100 <= c.status <= 999
    ensures IsDecision(header, calls, k, decided, wire.informational)
    ensures refused <==>
      NeedsCoding(e, head, decided.0, decided.1) && !CodingFits(e, head, range, decided.0, decided.1)
    ensures refused ==>
      && wire.head.Some? && wire.head.value.0 == 406 && wire.head.value.1 == decided.1.(contentRange := false,
           etag := false, trailer := false, json := false, contentLength := Some(0), varies := true)
      && wire.plain == [] && wire.coded == []
    ensures !refused && coded ==>
      && wire.head == Some((decided.0, decided.1.(contentEncoding := "gzip", contentLength := None, varies := true)))
      && wire.plain == [] && wire.coded == Payload(calls) && wire.closed
    ensures !refused && !coded ==>
      wire.head == Some((decided.0, decided.1.(varies := true))) && wire.plain == Payload(calls) && wire.coded == []
    ensures coded ==> CodingFits(e, head, range, decided.0, decided.1)
    ensures NeedsCoding(e, head, decided.0, decided.1) ==> refused || coded
    ensures (&& CallFlush !in calls && e.identity > 0.0
             && CodingFits(e, head, range, decided.0, decided.1)) ==>
      (coded <==> |Payload(calls)| >= 1024)
  {
    var w := new JsonCompressionWriter(e, head, range, header);
    hide *;
    NoPayload();
    k := 0;
    NothingDecided(header);
    for i := 0 to |calls|
      invariant fresh(w) && w.Valid() && !w.wire.closed && w.written == Payload(calls[..i])
      invariant CallFlush !in calls[..i] ==> !w.pushed
      invariant InStep(header, calls[..i], k, w.decided, w.header, w.wire.informational)
    {
      PayloadStep(calls, i);
      assert calls[i] in calls;
      ghost var was, now, early := w.decided, w.header, w.wire.informational;
      Take(w, calls[i]);
      k := StepGoesOn(header, calls, i, k, was, now, early, w.decided, w.header, w.wire.informational);
    }
    assert calls[..|calls|] == calls;
    ghost var was, now, early := w.decided, w.header, w.wire.informational;
    w.Finish();
    StepEnds(header, calls, k, was, now, early, w.decided.value);
    w.Outcome();
    wire, decided, refused, coded := w.wire, w.decided.value, w.rejected, w.gzip;
    Refusals(w, e, decided.0, decided.1);
    CodingFitsExactly(e, head, range, decided.0, decided.1);
    SentHeaders(decided.1);
    Limits();
  }

  lemma SentHeaders(h: Header)
    ensures Compressed(h) == h.(contentEncoding := "gzip", contentLength := None, varies := true)
    ensures Plain(h) == h.(varies := true)
    ensures Refused(h) == h.(contentRange := false, etag := false, trailer := false, json := false,
      contentLength := Some(0), varies := true)
  {}

  lemma Limits()
    ensures MINIMUM == 1024 && OK == 200 && NOT_ACCEPTABLE == 406 && SWITCHING_PROTOCOLS == 101
  {}

  lemma NoPayload()
    ensures Payload([]) == []
  {}

  lemma PayloadStep(calls: seq<Call>, i: nat)
    requires i < |calls|
    ensures Payload(calls[..i + 1]) == Payload(calls[..i]) + BytesOf(calls[i])
    ensures calls[..i + 1] == calls[..i] + [calls[i]]
  {
    assert calls[..i + 1][..i] == calls[..i];
  }

  lemma Refusals(w: JsonCompressionWriter, e: Encodings, s: nat, h: Header)
    requires w.identityForbidden <==> e.identity == 0.0
    ensures w.MustRefuse(s, h) <==> NeedsCoding(e, w.head, s, h) && !CompressibleWith(w.disabled, s, h)
  {}
}
