/**
 * mua/Message.java: a message is a map of its headers by type and a list of
 * parts, each part a map of its own headers by type and a body.
 */
module Messages {
  import opened Results
  import opened Strings
  import opened Encoding
  import opened Headers

  /** The body of the envelope part of a two-body message. */
  const Placeholder: string := "This is a message with multiple parts in MIME format."
  /** What follows every part of a multipart rendering but the last. */
  const Boundary: string := "\n--frontier\n"
  /** What follows the last part of a multipart rendering. */
  const Closing: string := "\n--frontier--"

  type HeaderMap = map<string, Header>

  /** Every header is filed under its own type. */
  predicate WellKeyed(m: HeaderMap) {
    forall k :: k in m ==> Type(m[k]) == k
  }

  // ---- Filling a header map ----

  /**
   * The map a loop of `put(h.getType(), h)` leaves when it starts from `m`
   * and walks `hs`.
   */
  function Collect(m: HeaderMap, hs: seq<Header>): HeaderMap
    decreases |hs|
  {
    if hs == [] then m else Collect(m[Type(hs[0]) := hs[0]], hs[1..])
  }

  /** No later header of `hs` has the type of the one at `i`. */
  predicate LastOfType(hs: seq<Header>, i: nat)
    requires i < |hs|
  {
    forall j :: i < j < |hs| ==> Type(hs[j]) != Type(hs[i])
  }

  /** The collected map holds the old keys and the types of `hs`. */
  lemma {:induction false} CollectKeys(m: HeaderMap, hs: seq<Header>, k: string)
    ensures k in Collect(m, hs) <==> k in m || exists i :: 0 <= i < |hs| && Type(hs[i]) == k
    decreases |hs|
  {
    if hs != [] {
      var tail := hs[1..];
      CollectKeys(m[Type(hs[0]) := hs[0]], tail, k);
      if exists i :: 0 <= i < |tail| && Type(tail[i]) == k {
        var i :| 0 <= i < |tail| && Type(tail[i]) == k;
        assert Type(hs[i + 1]) == k;
      }
      if exists i :: 0 <= i < |hs| && Type(hs[i]) == k {
        var i :| 0 <= i < |hs| && Type(hs[i]) == k;
        if i > 0 {
          assert Type(tail[i - 1]) == k;
        }
      }
    }
  }

  /** A key no header of `hs` has keeps its old header. */
  lemma {:induction false} CollectKeeps(m: HeaderMap, hs: seq<Header>, k: string)
    requires k in m && forall i :: 0 <= i < |hs| ==> Type(hs[i]) != k
    ensures k in Collect(m, hs) && Collect(m, hs)[k] == m[k]
    decreases |hs|
  {
    if hs != [] {
      assert Type(hs[0]) != k;
      assert forall i :: 0 <= i < |hs[1..]| ==> hs[1..][i] == hs[i + 1];
      CollectKeeps(m[Type(hs[0]) := hs[0]], hs[1..], k);
    }
  }

  /** The last header of each type wins. */
  lemma {:induction false} CollectLast(m: HeaderMap, hs: seq<Header>, i: nat)
    requires i < |hs| && LastOfType(hs, i)
    ensures Type(hs[i]) in Collect(m, hs) && Collect(m, hs)[Type(hs[i])] == hs[i]
    decreases |hs|
  {
    var tail := hs[1..];
    var m' := m[Type(hs[0]) := hs[0]];
    if i > 0 {
      assert tail[i - 1] == hs[i];
      assert LastOfType(tail, i - 1) by {
        forall j | i - 1 < j < |tail| ensures Type(tail[j]) != Type(tail[i - 1]) {
          assert tail[j] == hs[j + 1];
        }
      }
      CollectLast(m', tail, i - 1);
    } else {
      forall j | 0 <= j < |tail| ensures Type(tail[j]) != Type(hs[0]) {
        assert tail[j] == hs[j + 1];
      }
      CollectKeeps(m', tail, Type(hs[0]));
    }
  }

  /** Collecting files every header under its own type. */
  lemma {:induction false} CollectWellKeyed(m: HeaderMap, hs: seq<Header>)
    requires WellKeyed(m)
    ensures WellKeyed(Collect(m, hs))
    decreases |hs|
  {
    if hs != [] {
      CollectWellKeyed(m[Type(hs[0]) := hs[0]], hs[1..]);
    }
  }

  /** The loop that fills a header map, as the Part constructor and Message.from run it. */
  method CollectHeaders(hs: seq<Header>) returns (m: HeaderMap)
    ensures m == Collect(map[], hs)
  {
    m := map[];
    var i := 0;
    while i < |hs|
      invariant 0 <= i <= |hs|
      invariant Collect(map[], hs) == Collect(m, hs[i..])
    {
      assert hs[i..][1..] == hs[i + 1..];
      m := m[Type(hs[i]) := hs[i]];
      i := i + 1;
    }
  }

  /** Only a Content-Type header is filed under "Content-Type". */
  lemma ContentTypeKey(h: Header)
    ensures Type(h) == "Content-Type" <==> h.ContentType?
  {
  }

  // ---- Part ----

  datatype Part = Part(headers: HeaderMap, body: string)

  /** The Part invariant: headers filed by type, a Content-Type among them. */
  predicate ValidPart(p: Part) {
    WellKeyed(p.headers) && "Content-Type" in p.headers
  }

  /** Some header of the list is a Content-Type. */
  predicate HasContentType(hs: seq<Header>) {
    exists i :: 0 <= i < |hs| && hs[i].ContentType?
  }

  /**
   * The Part constructor: an empty header list fails, and so does a list
   * without a Content-Type; otherwise the map keeps the last header of each type.
   */
  function PartOf(hs: seq<Header>, body: string): (r: Result<Part>)
    ensures r.Ok? <==> hs != [] && HasContentType(hs)
    ensures r.Err? ==> r.error == IllegalArgument
    ensures r.Ok? ==> ValidPart(r.value) && r.value.body == body
    ensures r.Ok? ==> r.value.headers == Collect(map[], hs)
  {
    if hs == [] then Err(IllegalArgument)
    else
      var m := Collect(map[], hs);
      CollectWellKeyed(map[], hs);
      assert "Content-Type" in m <==> HasContentType(hs) by {
        CollectKeys(map[], hs, "Content-Type");
        if HasContentType(hs) {
          var i :| 0 <= i < |hs| && hs[i].ContentType?;
          assert Type(hs[i]) == "Content-Type";
        }
        if "Content-Type" in m {
          var i :| 0 <= i < |hs| && Type(hs[i]) == "Content-Type";
          ContentTypeKey(hs[i]);
        }
      }
      if "Content-Type" !in m then Err(IllegalArgument)
      else Ok(Part(m, body))
  }

  /** The Part constructor as the source runs it, with its loop. */
  method NewPart(hs: seq<Header>, body: string) returns (r: Result<Part>)
    ensures r == PartOf(hs, body)
  {
    if |hs| == 0 {
      return Err(IllegalArgument);
    }
    var m := CollectHeaders(hs);
    if "Content-Type" !in m {
      return Err(IllegalArgument);
    }
    r := Ok(Part(m, body));
  }

  /** The part's body is sent base64-encoded: it is not ASCII, or the part is HTML. */
  predicate Encoded(p: Part)
    requires ValidPart(p)
  {
    !IsAscii(p.body) || p.headers["Content-Type"].kind == TextHtml
  }

  /** Part.toString: the Content-Type rendering, a blank line, then the body as sent. */
  function PartText(c: Codec, p: Part): string
    requires ValidPart(p)
  {
    var ct := p.headers["Content-Type"];
    ContentText(ct.kind, ct.charset) + "\n\n" + (if Encoded(p) then c.encode(p.body) else p.body)
  }

  /**
   * A rendered part is its Content-Type lines, a blank line, and a body from
   * which the original is read back: decoded when it is encoded, verbatim
   * otherwise.
   */
  lemma PartTextShape(c: Codec, p: Part)
    requires Sound(c) && ValidPart(p)
    ensures var ct := p.headers["Content-Type"];
            var head := ContentText(ct.kind, ct.charset) + "\n\n";
            && StartsWith(head, PartText(c, p))
            && var sent := PartText(c, p)[|head|..];
            && (Encoded(p) ==> c.decode(sent) == p.body)
            && (!Encoded(p) ==> sent == p.body)
  {
    var ct := p.headers["Content-Type"];
    var head := ContentText(ct.kind, ct.charset) + "\n\n";
    var sent := if Encoded(p) then c.encode(p.body) else p.body;
    assert PartText(c, p) == head + sent;
    assert PartText(c, p)[..|head|] == head;
    assert PartText(c, p)[|head|..] == sent;
  }

  /** A part with an admitted Content-Type renders to ASCII, whatever its body. */
  lemma PartTextIsAscii(c: Codec, p: Part)
    requires Sound(c) && ValidPart(p) && ValidHeader(p.headers["Content-Type"])
    ensures IsAscii(PartText(c, p))
  {
    var ct := p.headers["Content-Type"];
    ContentTextIsAscii(ct.kind, ct.charset);
    AsciiConcat(ContentText(ct.kind, ct.charset), "\n\n");
    var sent := if Encoded(p) then c.encode(p.body) else p.body;
    AsciiConcat(ContentText(ct.kind, ct.charset) + "\n\n", sent);
  }

  // ---- Message ----

  datatype Message = Message(headers: HeaderMap, parts: seq<Part>)

  /** containsEssentialHeaders: From, To, Subject and Date are all present. */
  predicate Essential(m: HeaderMap) {
    "From" in m && "To" in m && "Subject" in m && "Date" in m
  }

  /** The Message invariant. */
  predicate ValidMessage(msg: Message) {
    && WellKeyed(msg.headers)
    && Essential(msg.headers)
    && forall i :: 0 <= i < |msg.parts| ==> ValidPart(msg.parts[i])
  }

  /**
   * The private Message constructor: a map that is empty or lacks an
   * essential header fails, and so does a part without a Content-Type.
   */
  function MessageOf(headers: HeaderMap, parts: seq<Part>): (r: Result<Message>)
    ensures r.Ok? <==> Essential(headers) && forall i :: 0 <= i < |parts| ==> "Content-Type" in parts[i].headers
    ensures r.Ok? ==> r.value == Message(headers, parts)
    ensures r.Err? ==> r.error == IllegalArgument
  {
    if |headers| == 0 || !Essential(headers) then Err(IllegalArgument)
    else if exists i :: 0 <= i < |parts| && "Content-Type" !in parts[i].headers then Err(IllegalArgument)
    else Ok(Message(headers, parts))
  }

  /** Which type string names which kind of header. */
  lemma TypeNames(h: Header)
    ensures Type(h) == "From" <==> h.From?
    ensures Type(h) == "To" <==> h.To?
    ensures Type(h) == "Subject" <==> h.Subject?
    ensures Type(h) == "Date" <==> h.Date?
  {
    if h.Date? {
      assert Type(h)[0] == 'D';
    }
  }

  /** The map built from `hs` has the header type `k` iff some header of `hs` has it. */
  lemma HasKind(hs: seq<Header>, k: string)
    ensures k in Collect(map[], hs) <==> exists i :: 0 <= i < |hs| && Type(hs[i]) == k
  {
    CollectKeys(map[], hs, k);
  }

  /** The map built from `hs` holds the four essential headers iff `hs` has one of each kind. */
  lemma EssentialIffKinds(hs: seq<Header>)
    ensures Essential(Collect(map[], hs)) <==>
            && (exists i :: 0 <= i < |hs| && hs[i].From?)
            && (exists i :: 0 <= i < |hs| && hs[i].To?)
            && (exists i :: 0 <= i < |hs| && hs[i].Subject?)
            && (exists i :: 0 <= i < |hs| && hs[i].Date?)
  {
    HasKind(hs, "From");
    HasKind(hs, "To");
    HasKind(hs, "Subject");
    HasKind(hs, "Date");
    forall i | 0 <= i < |hs| {
      TypeNames(hs[i]);
    }
  }

  // ---- Composing (Message.from(List, List, List)) ----

  /**
   * The parts of the compose policy. An empty second body gives one part, the
   * first part headers with the first body. Otherwise a non-empty first body
   * gives the envelope part (first part headers, the placeholder sentence) and
   * the text part (second part headers, first body) before the html part
   * (third part headers, second body); an empty first body gives the html part
   * alone. Lists too short for the positions read fail with IndexOutOfBounds.
   */
  function ComposeParts(partsHeaders: seq<seq<Header>>, body1: string, body2: string): (r: Result<seq<Part>>)
    ensures r.Ok? ==> forall i :: 0 <= i < |r.value| ==> ValidPart(r.value[i])
  {
    if body2 == "" then
      if |partsHeaders| < 1 then Err(IndexOutOfBounds)
      else
        var only :- PartOf(partsHeaders[0], body1);
        Ok([only])
    else if body1 != "" then
      if |partsHeaders| < 1 then Err(IndexOutOfBounds)
      else
        var envelope :- PartOf(partsHeaders[0], Placeholder);
        if |partsHeaders| < 2 then Err(IndexOutOfBounds)
        else
          var text :- PartOf(partsHeaders[1], body1);
          if |partsHeaders| < 3 then Err(IndexOutOfBounds)
          else
            var html :- PartOf(partsHeaders[2], body2);
            Ok([envelope, text, html])
    else if |partsHeaders| < 3 then Err(IndexOutOfBounds)
    else
      var html :- PartOf(partsHeaders[2], body2);
      Ok([html])
  }

  /**
   * Message.from(List, List, List): the message headers are filed by type and
   * must hold the essential four; then the two bodies are read and the parts built.
   */
  function Compose(messageHeaders: seq<Header>, partsHeaders: seq<seq<Header>>, bodies: seq<string>): (r: Result<Message>)
  {
    var headers := Collect(map[], messageHeaders);
    if !Essential(headers) || messageHeaders == [] then Err(IllegalArgument)
    else if |bodies| < 2 then Err(IndexOutOfBounds)
    else
      var parts :- ComposeParts(partsHeaders, bodies[0], bodies[1]);
      MessageOf(headers, parts)
  }

  /** The part-building steps of Message.from(List, List, List), in the source's order. */
  method BuildParts(partsHeaders: seq<seq<Header>>, body1: string, body2: string) returns (r: Result<seq<Part>>)
    ensures r == ComposeParts(partsHeaders, body1, body2)
  {
    var parts: seq<Part> := [];
    if body2 == "" {
      if |partsHeaders| < 1 {
        return Err(IndexOutOfBounds);
      }
      var only := NewPart(partsHeaders[0], body1);
      if only.Err? {
        return Err(only.error);
      }
      parts := [only.value];
    } else {
      if body1 != "" {
        if |partsHeaders| < 1 {
          return Err(IndexOutOfBounds);
        }
        var envelope := NewPart(partsHeaders[0], Placeholder);
        if envelope.Err? {
          return Err(envelope.error);
        }
        parts := [envelope.value];
        if |partsHeaders| < 2 {
          return Err(IndexOutOfBounds);
        }
        var text := NewPart(partsHeaders[1], body1);
        if text.Err? {
          return Err(text.error);
        }
        parts := parts + [text.value];
      }
      if |partsHeaders| < 3 {
        return Err(IndexOutOfBounds);
      }
      var html := NewPart(partsHeaders[2], body2);
      if html.Err? {
        return Err(html.error);
      }
      parts := parts + [html.value];
      if body1 != "" {
        assert parts == [PartOf(partsHeaders[0], Placeholder).value, PartOf(partsHeaders[1], body1).value, html.value];
      } else {
        assert parts == [html.value];
      }
    }
    r := Ok(parts);
  }

  /** Message.from(List, List, List) as the source runs it, with its loops. */
  method ComposeMessage(messageHeaders: seq<Header>, partsHeaders: seq<seq<Header>>, bodies: seq<string>)
    returns (r: Result<Message>)
    ensures r == Compose(messageHeaders, partsHeaders, bodies)
  {
    var headers := CollectHeaders(messageHeaders);
    if !Essential(headers) || |messageHeaders| == 0 {
      return Err(IllegalArgument);
    }
    if |bodies| < 2 {
      return Err(IndexOutOfBounds);
    }
    var parts := BuildParts(partsHeaders, bodies[0], bodies[1]);
    if parts.Err? {
      return Err(parts.error);
    }
    r := MessageOf(headers, parts.value);
  }

  /** A composed message is valid, and its headers are the given ones filed by type. */
  lemma ComposeIsValid(messageHeaders: seq<Header>, partsHeaders: seq<seq<Header>>, bodies: seq<string>)
    requires Compose(messageHeaders, partsHeaders, bodies).Ok?
    ensures ValidMessage(Compose(messageHeaders, partsHeaders, bodies).value)
    ensures Compose(messageHeaders, partsHeaders, bodies).value.headers == Collect(map[], messageHeaders)
  {
    CollectWellKeyed(map[], messageHeaders);
  }

  /** With an empty second body the message has one part: the first part headers and the first body. */
  lemma ComposeSinglePart(messageHeaders: seq<Header>, partsHeaders: seq<seq<Header>>, body1: string)
    requires Compose(messageHeaders, partsHeaders, [body1, ""]).Ok?
    ensures |partsHeaders| >= 1 && PartOf(partsHeaders[0], body1).Ok?
    ensures Compose(messageHeaders, partsHeaders, [body1, ""]).value.parts == [PartOf(partsHeaders[0], body1).value]
  {
  }

  /**
   * With both bodies non-empty the message has three parts: the envelope with
   * the placeholder sentence, the text part, the html part.
   */
  lemma ComposeThreeParts(messageHeaders: seq<Header>, partsHeaders: seq<seq<Header>>, body1: string, body2: string)
    requires body1 != "" && body2 != ""
    requires Compose(messageHeaders, partsHeaders, [body1, body2]).Ok?
    ensures |partsHeaders| >= 3
    ensures && PartOf(partsHeaders[0], Placeholder).Ok?
            && PartOf(partsHeaders[1], body1).Ok?
            && PartOf(partsHeaders[2], body2).Ok?
    ensures Compose(messageHeaders, partsHeaders, [body1, body2]).value.parts
            == [PartOf(partsHeaders[0], Placeholder).value, PartOf(partsHeaders[1], body1).value,
                PartOf(partsHeaders[2], body2).value]
  {
  }

  /** With an empty first body and a non-empty second one only the html part remains. */
  lemma ComposeHtmlOnly(messageHeaders: seq<Header>, partsHeaders: seq<seq<Header>>, body2: string)
    requires body2 != ""
    requires Compose(messageHeaders, partsHeaders, ["", body2]).Ok?
    ensures |partsHeaders| >= 3 && PartOf(partsHeaders[2], body2).Ok?
    ensures Compose(messageHeaders, partsHeaders, ["", body2]).value.parts == [PartOf(partsHeaders[2], body2).value]
  {
  }

  /**
   * Composing fails with IllegalArgument on a missing essential header and
   * with IndexOutOfBounds on too few bodies, and succeeds whenever the three
   * part header lists are there and each holds a Content-Type.
   */
  lemma ComposeFailures(messageHeaders: seq<Header>, partsHeaders: seq<seq<Header>>, bodies: seq<string>)
    ensures !Essential(Collect(map[], messageHeaders)) ==>
              Compose(messageHeaders, partsHeaders, bodies) == Err(IllegalArgument)
    ensures Essential(Collect(map[], messageHeaders)) && |bodies| < 2 ==>
              Compose(messageHeaders, partsHeaders, bodies) == Err(IndexOutOfBounds)
    ensures Essential(Collect(map[], messageHeaders)) && |bodies| >= 2 && |partsHeaders| >= 3
            && (forall i :: 0 <= i < 3 ==> HasContentType(partsHeaders[i])) ==>
              Compose(messageHeaders, partsHeaders, bodies).Ok?
  {
    if Essential(Collect(map[], messageHeaders)) {
      assert messageHeaders != [];
    }
  }

  // ---- Parse routing (Message.from(ASCIICharSequence)) ----

  /** One raw header of a fragment: its lower-cased name and its value. */
  datatype RawHeader = RawHeader(name: string, value: string)

  /** A fragment as EntryEncoding.decode yields it: raw headers and a raw body. */
  datatype Fragment = Fragment(rawHeaders: seq<RawHeader>, rawBody: string)

  /** Every value and body of the fragments is ASCII, as the stored sequence is. */
  predicate AsciiFragments(fs: seq<Fragment>) {
    forall i :: 0 <= i < |fs| ==> AsciiFragment(fs[i])
  }

  predicate AsciiFragment(f: Fragment) {
    IsAscii(f.rawBody) && forall j :: 0 <= j < |f.rawHeaders| ==> IsAscii(f.rawHeaders[j].value)
  }

  /** What the loops carry: the message headers so far, this fragment's part headers and its body. */
  datatype Routed = Routed(headers: HeaderMap, partHeaders: seq<Header>, body: string)

  /**
   * The switch on a raw header's name. from, to, subject and date go to the
   * message headers; content-type adds a part header, splitting the value at
   * ';': multipart/alternative gets the empty charset and the raw body; any
   * other kind gets utf-8 and the decoded raw body when its parameter mentions
   * utf-8, us-ascii otherwise. Any other name is skipped.
   */
  function Route(c: Codec, st: Routed, rh: RawHeader, rawBody: string): (r: Result<Routed>)
    requires IsAscii(rh.value)
  {
    match rh.name
    case "from" => File(st, "From", FromOfText(c, rh.value))
    case "to" => File(st, "To", RecipientsOfText(c, rh.value))
    case "subject" => File(st, "Subject", SubjectOfSequence(c, rh.value))
    case "date" => File(st, "Date", DateOfSequence(c, rh.value))
    case "content-type" => RouteContent(c, st, rh.value, rawBody)
    case _ => Ok(st)
  }

  /** headers.put(key, parsed): a header that does not parse fails the whole. */
  function File(st: Routed, key: string, h: Result<Header>): Result<Routed> {
    var x :- h;
    Ok(st.(headers := st.headers[key := x]))
  }

  /** Route, one header name at a time. */
  lemma RouteByName(c: Codec, st: Routed, rh: RawHeader, rawBody: string)
    requires IsAscii(rh.value)
    ensures rh.name == "from" ==> Route(c, st, rh, rawBody) == File(st, "From", FromOfText(c, rh.value))
    ensures rh.name == "to" ==> Route(c, st, rh, rawBody) == File(st, "To", RecipientsOfText(c, rh.value))
    ensures rh.name == "subject" ==> Route(c, st, rh, rawBody) == File(st, "Subject", SubjectOfSequence(c, rh.value))
    ensures rh.name == "date" ==> Route(c, st, rh, rawBody) == File(st, "Date", DateOfSequence(c, rh.value))
    ensures rh.name == "content-type" ==> Route(c, st, rh, rawBody) == RouteContent(c, st, rh.value, rawBody)
  {
  }

  /** Filing a header under its own type keeps the map well keyed and the part headers as they were. */
  lemma FileKeepsShape(st: Routed, key: string, h: Result<Header>)
    requires WellKeyed(st.headers)
    requires h.Ok? ==> Type(h.value) == key
    ensures File(st, key, h).Ok? ==>
              WellKeyed(File(st, key, h).value.headers) && File(st, key, h).value.partHeaders == st.partHeaders
  {
  }

  /**
   * The content-type case: the value split at ';' gives the kind and, for
   * kinds other than multipart/alternative, the parameter that chooses the charset.
   */
  function RouteContent(c: Codec, st: Routed, value: string, rawBody: string): Result<Routed> {
    var elements := Split(value, ';');
    if |elements| == 0 then Err(IndexOutOfBounds)
    else
      var kind := elements[0];
      if kind == Multipart then
        var h :- ContentOf(kind, "");
        Ok(st.(partHeaders := st.partHeaders + [h]))
      else if |elements| < 2 then Err(IndexOutOfBounds)
      else
        var utf8 := Contains(elements[1], "utf-8");
        var h :- ContentOf(kind, if utf8 then Utf8 else UsAscii);
        Ok(Routed(st.headers, st.partHeaders + [h], if utf8 then c.decode(rawBody) else st.body))
  }

  /** The inner loop over one fragment's raw headers. */
  function RouteHeaders(c: Codec, st: Routed, rhs: seq<RawHeader>, rawBody: string): Result<Routed>
    requires forall j :: 0 <= j < |rhs| ==> IsAscii(rhs[j].value)
    decreases |rhs|
  {
    if rhs == [] then Ok(st)
    else
      var st' :- Route(c, st, rhs[0], rawBody);
      RouteHeaders(c, st', rhs[1..], rawBody)
  }

  /** The outer loop: each fragment becomes one part, built from its routed headers and body. */
  function RouteFragments(c: Codec, headers: HeaderMap, parts: seq<Part>, fs: seq<Fragment>): Result<(HeaderMap, seq<Part>)>
    requires AsciiFragments(fs)
    decreases |fs|
  {
    if fs == [] then Ok((headers, parts))
    else
      var f := fs[0];
      var st :- RouteHeaders(c, Routed(headers, [], f.rawBody), f.rawHeaders, f.rawBody);
      var p :- PartOf(st.partHeaders, st.body);
      RouteFragments(c, st.headers, parts + [p], fs[1..])
  }

  /** Message.from(ASCIICharSequence), from the fragments on: route, then the Message constructor. */
  function Parse(c: Codec, fs: seq<Fragment>): Result<Message>
    requires AsciiFragments(fs)
  {
    var (headers, parts) :- RouteFragments(c, map[], [], fs);
    MessageOf(headers, parts)
  }

  /** The nested loops of Message.from(ASCIICharSequence). */
  method ParseFragments(c: Codec, fs: seq<Fragment>) returns (r: Result<Message>)
    requires AsciiFragments(fs)
    ensures r == Parse(c, fs)
  {
    var headers: HeaderMap := map[];
    var parts: seq<Part> := [];
    var i := 0;
    while i < |fs|
      invariant 0 <= i <= |fs|
      invariant AsciiFragments(fs[i..])
      invariant RouteFragments(c, map[], [], fs) == RouteFragments(c, headers, parts, fs[i..])
    {
      var f := fs[i];
      assert fs[i..][0] == f && fs[i..][1..] == fs[i + 1..];
      var st := Routed(headers, [], f.rawBody);
      var j := 0;
      while j < |f.rawHeaders|
        invariant 0 <= j <= |f.rawHeaders|
        invariant RouteHeaders(c, Routed(headers, [], f.rawBody), f.rawHeaders, f.rawBody)
                  == RouteHeaders(c, st, f.rawHeaders[j..], f.rawBody)
      {
        assert f.rawHeaders[j..][0] == f.rawHeaders[j] && f.rawHeaders[j..][1..] == f.rawHeaders[j + 1..];
        var next := Route(c, st, f.rawHeaders[j], f.rawBody);
        if next.Err? {
          return Err(next.error);
        }
        st := next.value;
        j := j + 1;
      }
      var p := NewPart(st.partHeaders, st.body);
      if p.Err? {
        return Err(p.error);
      }
      headers, parts := st.headers, parts + [p.value];
      i := i + 1;
    }
    r := MessageOf(headers, parts);
  }

  /** Raw headers with any other name leave everything as it was. */
  lemma RouteIgnoresOtherNames(c: Codec, st: Routed, rh: RawHeader, rawBody: string)
    requires IsAscii(rh.value)
    requires rh.name !in {"from", "to", "subject", "date", "content-type"}
    ensures Route(c, st, rh, rawBody) == Ok(st)
  {
  }

  /** A multipart/alternative value, whatever its parameters, adds the multipart header and keeps the body. */
  lemma RouteMultipart(c: Codec, st: Routed, params: string, rawBody: string)
    requires IsAscii(Multipart + params)
    requires params == "" || params[0] == ';'
    ensures Route(c, st, RawHeader("content-type", Multipart + params), rawBody)
            == Ok(st.(partHeaders := st.partHeaders + [ContentType(Multipart, "")]))
  {
    RouteByName(c, st, RawHeader("content-type", Multipart + params), rawBody);
    SplitMultipart(params);
  }

  /** Multipart, alone or before a ';', is the first element of the split. */
  lemma SplitMultipart(params: string)
    requires params == "" || params[0] == ';'
    ensures Split(Multipart + params, ';') != [] && Split(Multipart + params, ';')[0] == Multipart
  {
    var v := Multipart + params;
    MultipartHasNoSemicolon();
    if params == "" {
      assert v == Multipart;
      SplitNone(Multipart, ';');
    } else {
      assert v == Multipart + [';'] + params[1..];
      assert v[|Multipart|] == ';';
      PiecesHead(Multipart, ';', params[1..]);
      DropTrailingEmptyHead(Pieces(v, ';'));
    }
  }

  lemma MultipartHasNoSemicolon()
    ensures ';' !in Multipart
  {
  }

  /** Dropping trailing empty pieces keeps a non-empty first piece. */
  lemma {:induction false} DropTrailingEmptyHead(xs: seq<string>)
    requires xs != [] && xs[0] != ""
    ensures DropTrailingEmpty(xs) != [] && DropTrailingEmpty(xs)[0] == xs[0]
    decreases |xs|
  {
    if xs[|xs| - 1] == "" {
      assert |xs| > 1;
      DropTrailingEmptyHead(xs[..|xs| - 1]);
    }
  }

  /** A character of `sub` occurs in every text that contains `sub`. */
  lemma {:induction false} ContainsChar(s: string, sub: string, ch: char)
    requires Contains(s, sub) && ch in sub
    ensures ch in s
    decreases |s|
  {
    if StartsWith(sub, s) {
      var k :| 0 <= k < |sub| && sub[k] == ch;
      assert s[k] == ch;
    } else {
      ContainsChar(s[1..], sub, ch);
    }
  }

  /** The rendered parameter mentions utf-8 exactly for the utf-8 charset. */
  lemma CharsetParameter(charset: string)
    requires charset in {Utf8, UsAscii}
    ensures Contains(" charset=\"" + charset + "\"", "utf-8") <==> charset == Utf8
  {
    var param := " charset=\"" + charset + "\"";
    if charset == Utf8 {
      assert param[10..15] == "utf-8";
      ContainsSlice(param, "utf-8", 10);
    } else {
      assert 'f' !in param;
      if Contains(param, "utf-8") {
        ContainsChar(param, "utf-8", 'f');
      }
    }
  }

  /** The rendered Content-Type value splits at ';' into the kind and the charset parameter. */
  lemma ContentValueSplits(kind: string, charset: string)
    requires kind in {TextPlain, TextHtml} && charset in {Utf8, UsAscii}
    ensures Split(kind + "; charset=\"" + charset + "\"", ';') == [kind, " charset=\"" + charset + "\""]
  {
    var param := " charset=\"" + charset + "\"";
    assert kind + "; charset=\"" + charset + "\"" == kind + [';'] + param;
    assert ';' !in kind && ';' !in param;
    SplitTwo(kind, ';', param);
  }

  /**
   * The Content-Type line a part renders, `kind; charset="cs"`, is routed
   * back to the same header: the utf-8 charset with the decoded raw body,
   * us-ascii with the body untouched.
   */
  lemma RouteContentRoundTrip(c: Codec, st: Routed, kind: string, charset: string, rawBody: string)
    requires kind in {TextPlain, TextHtml} && charset in {Utf8, UsAscii}
    ensures RouteContent(c, st, kind + "; charset=\"" + charset + "\"", rawBody)
            == Ok(Routed(st.headers, st.partHeaders + [ContentType(kind, charset)],
                         if charset == Utf8 then c.decode(rawBody) else st.body))
  {
    ContentValueSplits(kind, charset);
    CharsetParameter(charset);
  }

  /** The rendered Content-Type value is ASCII, so it can stand in a stored message. */
  lemma ContentValueIsAscii(kind: string, charset: string)
    requires kind in {TextPlain, TextHtml} && charset in {Utf8, UsAscii}
    ensures IsAscii(kind + "; charset=\"" + charset + "\"")
  {
    AsciiConcat(kind, "; charset=\"");
    AsciiConcat(kind + "; charset=\"", charset);
    AsciiConcat(kind + "; charset=\"" + charset, "\"");
  }

  /** One routed raw header keeps message headers filed by type and adds only a Content-Type part header. */
  lemma RouteKeepsShape(c: Codec, st: Routed, rh: RawHeader, rawBody: string)
    requires IsAscii(rh.value)
    requires WellKeyed(st.headers)
    requires forall i :: 0 <= i < |st.partHeaders| ==> st.partHeaders[i].ContentType?
    ensures Route(c, st, rh, rawBody).Ok? ==>
              var st' := Route(c, st, rh, rawBody).value;
              && WellKeyed(st'.headers)
              && forall i :: 0 <= i < |st'.partHeaders| ==> st'.partHeaders[i].ContentType?
  {
    var v := rh.value;
    RouteByName(c, st, rh, rawBody);
    if rh.name == "from" {
      FileKeepsShape(st, "From", FromOfText(c, v));
    } else if rh.name == "to" {
      FileKeepsShape(st, "To", RecipientsOfText(c, v));
    } else if rh.name == "subject" {
      FileKeepsShape(st, "Subject", SubjectOfSequence(c, v));
    } else if rh.name == "date" {
      FileKeepsShape(st, "Date", DateOfSequence(c, v));
    } else if rh.name == "content-type" {
      RouteContentKeepsShape(c, st, v, rawBody);
    }
  }

  /** The content-type case leaves the message headers alone and adds one Content-Type part header. */
  lemma RouteContentKeepsShape(c: Codec, st: Routed, value: string, rawBody: string)
    ensures RouteContent(c, st, value, rawBody).Ok? ==>
              var st' := RouteContent(c, st, value, rawBody).value;
              && st'.headers == st.headers
              && |st'.partHeaders| == |st.partHeaders| + 1
              && st'.partHeaders[..|st.partHeaders|] == st.partHeaders
              && st'.partHeaders[|st.partHeaders|].ContentType?
  {
  }

  /** Routing keeps message headers filed by type and adds only Content-Type part headers. */
  lemma {:induction false} RouteHeadersKeepsShape(c: Codec, st: Routed, rhs: seq<RawHeader>, rawBody: string)
    requires forall j :: 0 <= j < |rhs| ==> IsAscii(rhs[j].value)
    requires WellKeyed(st.headers)
    requires forall i :: 0 <= i < |st.partHeaders| ==> st.partHeaders[i].ContentType?
    ensures RouteHeaders(c, st, rhs, rawBody).Ok? ==>
              var st' := RouteHeaders(c, st, rhs, rawBody).value;
              && WellKeyed(st'.headers)
              && forall i :: 0 <= i < |st'.partHeaders| ==> st'.partHeaders[i].ContentType?
    decreases |rhs|
  {
    if rhs != [] && Route(c, st, rhs[0], rawBody).Ok? {
      RouteKeepsShape(c, st, rhs[0], rawBody);
      RouteHeadersKeepsShape(c, Route(c, st, rhs[0], rawBody).value, rhs[1..], rawBody);
    }
  }

  /** Every part of a parsed message carries a Content-Type header and nothing else. */
  lemma {:induction false} RouteFragmentsKeepsShape(c: Codec, headers: HeaderMap, parts: seq<Part>, fs: seq<Fragment>)
    requires AsciiFragments(fs)
    requires WellKeyed(headers)
    requires forall i :: 0 <= i < |parts| ==> ValidPart(parts[i]) && parts[i].headers.Keys == {"Content-Type"}
    ensures RouteFragments(c, headers, parts, fs).Ok? ==>
              var (h, ps) := RouteFragments(c, headers, parts, fs).value;
              && WellKeyed(h)
              && forall i :: 0 <= i < |ps| ==> ValidPart(ps[i]) && ps[i].headers.Keys == {"Content-Type"}
    decreases |fs|
  {
    if fs != [] {
      var f := fs[0];
      var st0 := Routed(headers, [], f.rawBody);
      assert AsciiFragment(f);
      RouteHeadersKeepsShape(c, st0, f.rawHeaders, f.rawBody);
      var st := RouteHeaders(c, st0, f.rawHeaders, f.rawBody);
      if st.Ok? && PartOf(st.value.partHeaders, st.value.body).Ok? {
        var hs := st.value.partHeaders;
        var p := PartOf(hs, st.value.body).value;
        forall k ensures k in p.headers <==> k == "Content-Type" {
          CollectKeys(map[], hs, k);
          if k in p.headers {
            var i :| 0 <= i < |hs| && Type(hs[i]) == k;
          }
        }
        assert forall i :: 0 <= i < |fs[1..]| ==> fs[1..][i] == fs[i + 1];
        RouteFragmentsKeepsShape(c, st.value.headers, parts + [p], fs[1..]);
      }
    }
  }

  /** A parsed message is valid, and each of its parts has only its Content-Type header. */
  lemma ParseIsValid(c: Codec, fs: seq<Fragment>)
    requires AsciiFragments(fs)
    requires Parse(c, fs).Ok?
    ensures ValidMessage(Parse(c, fs).value)
    ensures forall i :: 0 <= i < |Parse(c, fs).value.parts| ==>
              Parse(c, fs).value.parts[i].headers.Keys == {"Content-Type"}
  {
    RouteFragmentsKeepsShape(c, map[], [], fs);
  }

  // ---- Rendering (toString) ----

  /** The four header lines, each ending in a newline, in the order From, To, Subject, Date. */
  function HeaderLines(c: Codec, m: Message): Result<string>
    requires ValidMessage(m)
  {
    var from :- Render(c, m.headers["From"]);
    var to :- Render(c, m.headers["To"]);
    var subject :- Render(c, m.headers["Subject"]);
    var date :- Render(c, m.headers["Date"]);
    Ok(from + "\n" + to + "\n" + subject + "\n" + date + "\n")
  }

  /** The renderings of the parts, in order. */
  function PartTexts(c: Codec, ps: seq<Part>): (ts: seq<string>)
    requires forall i :: 0 <= i < |ps| ==> ValidPart(ps[i])
    ensures |ts| == |ps|
  {
    seq(|ps|, i requires 0 <= i < |ps| => PartText(c, ps[i]))
  }

  /**
   * The parts as rendered: a single part alone; otherwise each part followed
   * by the boundary, the last by the closing boundary (nothing for no parts).
   */
  function Body(c: Codec, ps: seq<Part>): string
    requires forall i :: 0 <= i < |ps| ==> ValidPart(ps[i])
  {
    if |ps| == 1 then PartText(c, ps[0])
    else if ps == [] then ""
    else Join(PartTexts(c, ps), Boundary) + Closing
  }

  /** Message.toString: the header lines, then the parts. */
  function MessageText(c: Codec, m: Message): Result<string>
    requires ValidMessage(m)
  {
    var lines :- HeaderLines(c, m);
    Ok(lines + Body(c, m.parts))
  }

  /** Message.toString as the source runs it: the header lines, then the loop over the parts. */
  method RenderMessage(c: Codec, m: Message) returns (r: Result<string>)
    requires ValidMessage(m)
    ensures r == MessageText(c, m)
  {
    var lines := HeaderLines(c, m);
    if lines.Err? {
      return Err(lines.error);
    }
    var ps := m.parts;
    var n := |ps|;
    if n == 1 {
      return Ok(lines.value + PartText(c, ps[0]));
    }
    ghost var texts := PartTexts(c, ps);
    var sb := "";
    var i := 0;
    while i < n
      invariant 0 <= i <= n
      invariant i < n ==> sb == Terminated(texts[..i], Boundary)
      invariant i == n && n > 0 ==> sb == Terminated(texts[..n - 1], Boundary) + texts[n - 1] + Closing
      invariant n == 0 ==> sb == ""
    {
      assert texts[..i + 1][..i] == texts[..i];
      if i == n - 1 {
        sb := sb + PartText(c, ps[i]) + Closing;
      } else {
        sb := sb + PartText(c, ps[i]) + Boundary;
      }
      i := i + 1;
    }
    if n > 0 {
      JoinByTerminated(texts, Boundary);
    }
    r := Ok(lines.value + sb);
  }

  lemma PartTextsPrefix(c: Codec, ps: seq<Part>, k: nat)
    requires (forall i :: 0 <= i < |ps| ==> ValidPart(ps[i])) && k <= |ps|
    ensures PartTexts(c, ps)[..k] == PartTexts(c, ps[..k])
  {
  }

  /** Two or more parts: each but the last followed by the boundary, the last by the closing boundary. */
  lemma BodyShape(c: Codec, ps: seq<Part>)
    requires (forall i :: 0 <= i < |ps| ==> ValidPart(ps[i])) && |ps| >= 2
    ensures Body(c, ps) == Terminated(PartTexts(c, ps[..|ps| - 1]), Boundary) + PartText(c, ps[|ps| - 1]) + Closing
  {
    var texts, n := PartTexts(c, ps), |ps|;
    assert Body(c, ps) == Join(texts, Boundary) + Closing;
    JoinByTerminated(texts, Boundary);
    PartTextsPrefix(c, ps, n - 1);
    assert texts[n - 1] == PartText(c, ps[n - 1]);
  }

  /**
   * A message with two or more parts renders as the header lines, each part
   * but the last followed by the boundary, and the last by the closing boundary;
   * there is no blank line of the message's own before the first part.
   */
  lemma MessageTextShape(c: Codec, m: Message)
    requires ValidMessage(m) && HeaderLines(c, m).Ok? && |m.parts| >= 2
    ensures MessageText(c, m) == Ok(HeaderLines(c, m).value + Body(c, m.parts))
    ensures var n := |m.parts|;
            Body(c, m.parts) == Terminated(PartTexts(c, m.parts[..n - 1]), Boundary) + PartText(c, m.parts[n - 1]) + Closing
  {
    BodyShape(c, m.parts);
  }

  /** Message.toSequence: the rendering, refused unless it is ASCII. */
  function MessageSequence(c: Codec, m: Message): (r: Result<string>)
    requires ValidMessage(m)
    ensures r.Ok? <==> MessageText(c, m).Ok? && IsAscii(MessageText(c, m).value)
    ensures r.Ok? ==> r == MessageText(c, m)
    ensures MessageText(c, m).Err? ==> r == Err(MessageText(c, m).error)
    ensures MessageText(c, m).Ok? && !IsAscii(MessageText(c, m).value) ==> r == Err(IllegalArgument)
  {
    var t :- MessageText(c, m);
    if IsAscii(t) then Ok(t) else Err(IllegalArgument)
  }

  /** Every header and every part Content-Type satisfies its invariant, and display names are ASCII. */
  predicate Storable(m: Message)
    requires ValidMessage(m)
  {
    && (forall k :: k in m.headers ==> ValidHeader(m.headers[k]) && AsciiNames(m.headers[k]))
    && forall i :: 0 <= i < |m.parts| ==> ValidHeader(m.parts[i].headers["Content-Type"])
  }

  /** A message that renders and whose headers are storable is stored as its rendering. */
  lemma MessageIsStorable(c: Codec, m: Message)
    requires Sound(c) && ValidMessage(m) && Storable(m) && MessageText(c, m).Ok?
    ensures MessageSequence(c, m) == MessageText(c, m)
  {
    var hs := m.headers;
    HeaderIsStorable(c, hs["From"]);
    HeaderIsStorable(c, hs["To"]);
    HeaderIsStorable(c, hs["Subject"]);
    HeaderIsStorable(c, hs["Date"]);
    var from, to, subject, date := Render(c, hs["From"]).value, Render(c, hs["To"]).value,
                                   Render(c, hs["Subject"]).value, Render(c, hs["Date"]).value;
    AsciiConcat(from, "\n");
    AsciiConcat(from + "\n", to);
    AsciiConcat(from + "\n" + to, "\n");
    AsciiConcat(from + "\n" + to + "\n", subject);
    AsciiConcat(from + "\n" + to + "\n" + subject, "\n");
    AsciiConcat(from + "\n" + to + "\n" + subject + "\n", date);
    AsciiConcat(from + "\n" + to + "\n" + subject + "\n" + date, "\n");
    BodyIsAscii(c, m.parts);
    AsciiConcat(HeaderLines(c, m).value, Body(c, m.parts));
  }

  lemma BoundariesAreAscii()
    ensures IsAscii(Boundary) && IsAscii(Closing)
  {
  }

  lemma BodyIsAscii(c: Codec, ps: seq<Part>)
    requires Sound(c)
    requires forall i :: 0 <= i < |ps| ==> ValidPart(ps[i]) && ValidHeader(ps[i].headers["Content-Type"])
    ensures IsAscii(Body(c, ps))
  {
    forall i | 0 <= i < |ps| ensures IsAscii(PartTexts(c, ps)[i]) {
      PartTextIsAscii(c, ps[i]);
    }
    if |ps| == 1 {
      PartTextIsAscii(c, ps[0]);
    } else if |ps| > 1 {
      BoundariesAreAscii();
      JoinAscii(PartTexts(c, ps), Boundary);
      AsciiConcat(Join(PartTexts(c, ps), Boundary), Closing);
    }
  }

  // ---- equals ----

  /**
   * Map.equals over header maps: the same keys, and each header of the first
   * equal (by its own equals) to the other's header of that type.
   */
  predicate MapsEqual(c: Codec, a: HeaderMap, b: HeaderMap) {
    a.Keys == b.Keys && forall k :: k in a ==> Equals(c, a[k], b[k])
  }

  /** Part.equals: equal header maps and equal bodies. */
  predicate PartsEqual(c: Codec, p: Part, q: Part) {
    MapsEqual(c, p.headers, q.headers) && p.body == q.body
  }

  /** Message.equals: equal header maps and element-wise equal part lists. */
  predicate MessagesEqual(c: Codec, m1: Message, m2: Message) {
    && MapsEqual(c, m1.headers, m2.headers)
    && |m1.parts| == |m2.parts|
    && forall i :: 0 <= i < |m1.parts| ==> PartsEqual(c, m1.parts[i], m2.parts[i])
  }

  /** Every header of the map other than a Subject with a non-ASCII text equals itself. */
  lemma {:induction false} HeaderEqualsItself(c: Codec, h: Header)
    requires h.Subject? ==> IsAscii(h.subject)
    ensures Equals(c, h, h)
  {
    match h
    case To(rs) =>
      assert ListsEqual(rs, rs);
    case _ =>
  }

  /** A message whose subject is ASCII equals itself. */
  lemma MessageEqualsItself(c: Codec, m: Message)
    requires ValidMessage(m)
    requires forall k :: k in m.headers && m.headers[k].Subject? ==> IsAscii(m.headers[k].subject)
    requires forall i, k :: 0 <= i < |m.parts| && k in m.parts[i].headers && m.parts[i].headers[k].Subject? ==>
               IsAscii(m.parts[i].headers[k].subject)
    ensures MessagesEqual(c, m, m)
  {
    forall k | k in m.headers ensures Equals(c, m.headers[k], m.headers[k]) {
      HeaderEqualsItself(c, m.headers[k]);
    }
    forall i, k | 0 <= i < |m.parts| && k in m.parts[i].headers
      ensures Equals(c, m.parts[i].headers[k], m.parts[i].headers[k])
    {
      HeaderEqualsItself(c, m.parts[i].headers[k]);
    }
  }

  /** Two distinct messages holding the same non-ASCII subject are not equal. */
  lemma DistinctForeignSubjectMessagesDiffer(c: Codec, m: Message)
    requires Sound(c) && ValidMessage(m)
    requires m.headers["Subject"].Subject? && !IsAscii(m.headers["Subject"].subject)
    ensures !MessagesEqual(c, m, m)
  {
    DistinctForeignSubjectsDiffer(c, m.headers["Subject"].subject);
  }
}
