/**
 * mua/Header.java and its five implementations (FromHeader, RecipientHeader,
 * SubjectHeader, DateHeader, ContentHeader) as one closed datatype, with the
 * interface's getType, getValue and toSequence as functions over it.
 */
module Headers {
  import opened Results
  import opened Strings
  import opened Encoding
  import Dates
  import Addresses

  /** The three Content-Type kinds and two charsets ContentHeader.from admits. */
  const Multipart: string := "multipart/alternative"
  const TextPlain: string := "text/plain"
  const TextHtml: string := "text/html"
  const Utf8: string := "utf-8"
  const UsAscii: string := "us-ascii"

  /** The line a non-us-ascii Content-Type adds. */
  const Base64Line: string := "\nContent-Transfer-Encoding: base64"

  datatype Header =
    | From(sender: Addresses.Address)                // FromHeader
    | To(recipients: seq<Addresses.Address>)         // RecipientHeader
    | Subject(subject: string)                       // SubjectHeader, stored decoded
    | Date(date: Dates.ZonedDateTime)                // DateHeader
    | ContentType(kind: string, charset: string)     // ContentHeader

  /** ContentHeader.from's two checks: an admitted kind, then an admitted charset for it. */
  predicate ContentOk(kind: string, charset: string) {
    && (kind == Multipart || kind == TextPlain || kind == TextHtml)
    && (charset == Utf8 || charset == UsAscii || (kind == Multipart && charset == ""))
  }

  /** The representation invariants the factories establish. */
  predicate ValidHeader(h: Header) {
    match h
    case From(a) => Addresses.Valid(a)
    case To(rs) => forall i :: 0 <= i < |rs| ==> Addresses.Valid(rs[i])
    case Subject(_) => true
    case Date(_) => true
    case ContentType(k, cs) => ContentOk(k, cs)
  }

  // ---- getType ----

  function Type(h: Header): string {
    match h
    case From(_) => "From"
    case To(_) => "To"
    case Subject(_) => "Subject"
    case Date(_) => "Date"
    case ContentType(_, _) => "Content-Type"
  }

  /** Every kind of header has its own type string: equal types mean the same kind. */
  lemma TypeIsUnique(h1: Header, h2: Header)
    ensures Type(h1) == Type(h2) <==>
            || (h1.From? && h2.From?) || (h1.To? && h2.To?) || (h1.Subject? && h2.Subject?)
            || (h1.Date? && h2.Date?) || (h1.ContentType? && h2.ContentType?)
  {
    if h1.Date? && h2.From? {
      assert Type(h1)[0] != Type(h2)[0];
    }
    if h1.From? && h2.Date? {
      assert Type(h1)[0] != Type(h2)[0];
    }
  }

  // ---- Factories ----

  /**
   * ContentHeader.from: an unknown kind fails first; then utf-8 and us-ascii
   * are admitted for every kind, the empty charset for multipart/alternative only.
   */
  function ContentOf(kind: string, charset: string): (r: Result<Header>)
    ensures r.Ok? ==> r.value == ContentType(kind, charset) && ValidHeader(r.value)
    ensures r.Err? ==> r.error == IllegalArgument
    ensures kind !in {Multipart, TextPlain, TextHtml} ==> r.Err?
    ensures kind in {Multipart, TextPlain, TextHtml} && charset in {Utf8, UsAscii} ==> r.Ok?
    ensures charset == "" ==> (r.Ok? <==> kind == Multipart)
    ensures charset !in {Utf8, UsAscii, ""} ==> r.Err?
  {
    if kind == "" || (kind != Multipart && kind != TextPlain && kind != TextHtml) then
      Err(IllegalArgument)
    else if charset != Utf8 && charset != UsAscii && !(kind == Multipart && charset == "") then
      Err(IllegalArgument)
    else
      Ok(ContentType(kind, charset))
  }

  /** FromHeader.from(List): three parts exactly, then Address.from(List). */
  function FromOfParts(parts: seq<string>): (r: Result<Header>)
    ensures r.Ok? <==>
              |parts| == 3 && Addresses.IsValidPart(parts[1]) && Addresses.IsValidPart(parts[2])
    ensures r.Ok? ==> r.value == From(Addresses.Address(parts[0], parts[1], parts[2]))
    ensures r.Ok? ==> ValidHeader(r.value)
    ensures r.Err? ==> r.error == IllegalArgument
  {
    if |parts| == 0 || |parts| != 3 then Err(IllegalArgument)
    else
      var a :- Addresses.FromParts(parts);
      Ok(From(a))
  }

  /** FromHeader.from(String): non-ASCII text is refused before it is parsed. */
  function FromOfText(c: Codec, text: string): (r: Result<Header>)
    ensures !IsAscii(text) ==> r == Err(IllegalArgument)
    ensures r.Ok? ==>
              && r.value.From?
              && Addresses.FromText(c, text).Ok?
              && r.value.sender == Addresses.FromText(c, text).value
    ensures r.Ok? ==> ValidHeader(r.value)
    ensures IsAscii(text) ==> (r.Ok? <==> Addresses.FromText(c, text).Ok?)
  {
    if !IsAscii(text) then Err(IllegalArgument)
    else
      var a :- Addresses.FromText(c, text);
      Ok(From(a))
  }

  /** Every inner list is three valid address parts. */
  predicate AllAddressParts(lists: seq<seq<string>>) {
    forall i :: 0 <= i < |lists| ==> Addresses.FromParts(lists[i]).Ok?
  }

  /** RecipientHeader.from(List): one Address per inner list, in order, or the first failure. */
  function RecipientsOf(lists: seq<seq<string>>): (r: Result<Header>)
    ensures r.Ok? <==> AllAddressParts(lists)
    ensures r.Ok? ==>
              && r.value.To?
              && |r.value.recipients| == |lists|
              && forall i :: 0 <= i < |lists| ==>
                   && |lists[i]| == 3
                   && r.value.recipients[i] == Addresses.Address(lists[i][0], lists[i][1], lists[i][2])
    ensures r.Ok? ==> ValidHeader(r.value)
    ensures r.Err? ==> r.error == IllegalArgument
  {
    if AllAddressParts(lists) then
      Ok(To(seq(|lists|, i requires 0 <= i < |lists| => Addresses.FromParts(lists[i]).value)))
    else
      Err(IllegalArgument)
  }

  /** The for-each loop of RecipientHeader.from(List), stopping at the first bad address. */
  method RecipientsFrom(lists: seq<seq<string>>) returns (r: Result<Header>)
    ensures r == RecipientsOf(lists)
  {
    var addresses: seq<Addresses.Address> := [];
    var i := 0;
    while i < |lists|
      invariant 0 <= i <= |lists|
      invariant |addresses| == i
      invariant forall j :: 0 <= j < i ==> Addresses.FromParts(lists[j]) == Ok(addresses[j])
    {
      var a := Addresses.FromParts(lists[i]);
      if a.Err? {
        assert !AllAddressParts(lists);
        return Err(a.error);
      }
      addresses := addresses + [a.value];
      i := i + 1;
    }
    assert AllAddressParts(lists);
    assert forall j :: 0 <= j < |lists| ==> addresses[j] == RecipientsOf(lists).value.recipients[j];
    assert addresses == RecipientsOf(lists).value.recipients;
    r := Ok(To(addresses));
  }

  /** RecipientHeader.from(ASCIICharSequence): the decoded address lists, then from(List). */
  function RecipientsOfText(c: Codec, text: string): (r: Result<Header>)
    ensures c.decodeAddresses(text).None? ==> r == Err(IllegalArgument)
    ensures c.decodeAddresses(text).Some? ==> r == RecipientsOf(c.decodeAddresses(text).value)
  {
    match c.decodeAddresses(text)
    case None => Err(IllegalArgument)
    case Some(lists) => RecipientsOf(lists)
  }

  /**
   * SubjectHeader.from(String): the empty subject fails; text opening an
   * encoded word is decoded (ASCIICharSequence.of refuses it if it is not
   * ASCII); any other text is kept as it is.
   */
  function SubjectOfText(c: Codec, text: string): (r: Result<Header>)
    ensures text == "" ==> r == Err(IllegalArgument)
    ensures text != "" && !StartsWith(WordPrefix, text) ==> r == Ok(Subject(text))
    ensures StartsWith(WordPrefix, text) && IsAscii(text) ==> r == Ok(Subject(c.decodeWord(text)))
    ensures StartsWith(WordPrefix, text) && !IsAscii(text) ==> r == Err(IllegalArgument)
  {
    if text == "" then Err(IllegalArgument)
    else if StartsWith(WordPrefix, text) then
      if IsAscii(text) then Ok(Subject(c.decodeWord(text))) else Err(IllegalArgument)
    else Ok(Subject(text))
  }

  /** SubjectHeader.from(ASCIICharSequence): the same rules over text that is ASCII by type. */
  function SubjectOfSequence(c: Codec, sequence: string): (r: Result<Header>)
    requires IsAscii(sequence)
    ensures r.Err? <==> sequence == ""
    ensures r.Ok? ==> r.value.Subject?
    ensures r.Ok? && !StartsWith(WordPrefix, sequence) ==> r.value.subject == sequence
    ensures r.Ok? && StartsWith(WordPrefix, sequence) ==> r.value.subject == c.decodeWord(sequence)
  {
    if sequence == [] then Err(IllegalArgument)
    else if StartsWith(WordPrefix, sequence) then Ok(Subject(c.decodeWord(sequence)))
    else Ok(Subject(sequence))
  }

  /** On ASCII text the two Subject factories agree. */
  lemma SubjectFactoriesAgree(c: Codec, text: string)
    requires IsAscii(text)
    ensures SubjectOfText(c, text) == SubjectOfSequence(c, text)
  {
  }

  /** SubjectHeader.getSubject: the wire form, an encoded word exactly when the subject is not ASCII. */
  function EncodedSubject(c: Codec, subject: string): (r: string)
    ensures IsAscii(subject) ==> r == subject
    ensures !IsAscii(subject) ==> r == c.encodeWord(subject)
  {
    if !IsAscii(subject) then c.encodeWord(subject) else subject
  }

  /** The wire form of a subject is ASCII when the word encoder behaves. */
  lemma EncodedSubjectIsAscii(c: Codec, subject: string)
    requires Sound(c)
    ensures IsAscii(EncodedSubject(c, subject))
  {
  }

  /**
   * Reading back the wire form gives the subject again, for a non-empty
   * subject that is not ASCII (it travels as an encoded word) or that does
   * not itself open an encoded word (it travels verbatim).
   */
  lemma SubjectRoundTrip(c: Codec, subject: string)
    requires Sound(c)
    requires subject != ""
    requires !IsAscii(subject) || !StartsWith(WordPrefix, subject)
    ensures SubjectOfText(c, EncodedSubject(c, subject)) == Ok(Subject(subject))
  {
    if !IsAscii(subject) {
      var word := c.encodeWord(subject);
      assert StartsWith(WordPrefix, word) && IsAscii(word);
      assert word != "" by {
        assert |word| >= |WordPrefix|;
      }
      assert c.decodeWord(word) == subject;
    }
  }

  /** DateHeader.from(ASCIICharSequence): text the decoder cannot parse fails. */
  function DateOfSequence(c: Codec, sequence: string): (r: Result<Header>)
    ensures c.decodeDate(sequence).None? <==> r == Err(IllegalArgument)
    ensures c.decodeDate(sequence).Some? ==> r == Ok(Date(c.decodeDate(sequence).value))
  {
    match c.decodeDate(sequence)
    case None => Err(IllegalArgument)
    case Some(d) => Ok(Date(d))
  }

  /** DateHeader.from(String): empty or non-ASCII text fails before it is decoded. */
  function DateOfText(c: Codec, text: string): (r: Result<Header>)
    ensures text == "" || !IsAscii(text) ==> r == Err(IllegalArgument)
    ensures text != "" && IsAscii(text) ==> r == DateOfSequence(c, text)
    ensures r.Ok? ==> r.value.Date? && c.decodeDate(text) == Some(r.value.date)
  {
    if !IsAscii(text) || text == "" then Err(IllegalArgument)
    else DateOfSequence(c, text)
  }

  // ---- Rendering ----

  /** Every address of the list renders (no display name ends in a space). */
  predicate AllRendered(rs: seq<Addresses.Address>) {
    forall i :: 0 <= i < |rs| ==> Addresses.Text(rs[i]).Ok?
  }

  /** The renderings of the addresses, in order. */
  function Texts(rs: seq<Addresses.Address>): (ts: seq<string>)
    requires AllRendered(rs)
    ensures |ts| == |rs|
  {
    seq(|rs|, i requires 0 <= i < |rs| => Addresses.Text(rs[i]).value)
  }

  lemma TextsPrefix(rs: seq<Addresses.Address>, k: nat)
    requires AllRendered(rs) && k <= |rs|
    ensures AllRendered(rs[..k]) && Texts(rs)[..k] == Texts(rs[..k])
  {
    assert AllRendered(rs[..k]) by {
      forall i | 0 <= i < k ensures Addresses.Text(rs[..k][i]).Ok? {
        assert rs[..k][i] == rs[i];
      }
    }
  }

  /**
   * The address renderings joined by `sep`, as RecipientHeader.getValue and
   * toString build them. The empty list reads index -1, and an address that
   * does not render fails the whole.
   */
  function JoinedTexts(rs: seq<Addresses.Address>, sep: string): (r: Result<string>)
    ensures r.Err? <==> rs == [] || !AllRendered(rs)
    ensures r.Err? ==> r.error == IndexOutOfBounds
  {
    if rs == [] || !AllRendered(rs) then Err(IndexOutOfBounds)
    else Ok(Join(Texts(rs), sep))
  }

  /**
   * The index loop of RecipientHeader.getValue and toString: every address
   * but the last followed by `sep`, then the last one.
   */
  method JoinRendered(rs: seq<Addresses.Address>, sep: string) returns (r: Result<string>)
    ensures r == JoinedTexts(rs, sep)
  {
    var n := |rs|;
    if n == 0 {
      return Err(IndexOutOfBounds);
    }
    var sb := "";
    var i := 0;
    while i < n - 1
      invariant 0 <= i <= n - 1
      invariant forall j :: 0 <= j < i ==> Addresses.Text(rs[j]).Ok?
      invariant sb == Terminated(Texts(rs[..i]), sep)
    {
      var t := Addresses.Render(rs[i]);
      if t.Err? {
        return Err(t.error);
      }
      TextsPrefix(rs[..i + 1], i);
      assert rs[..i + 1][..i] == rs[..i];
      var ts := Texts(rs[..i + 1]);
      assert ts[i] == t.value;
      assert Terminated(ts, sep) == Terminated(ts[..i], sep) + ts[i] + sep;
      sb := sb + t.value + sep;
      i := i + 1;
    }
    var t := Addresses.Render(rs[n - 1]);
    if t.Err? {
      return Err(t.error);
    }
    JoinByTerminated(Texts(rs), sep);
    TextsPrefix(rs, n - 1);
    r := Ok(sb + t.value);
  }

  /** ContentHeader.getValue: the kind alone for multipart, otherwise the kind, a space and the charset. */
  function ContentValue(kind: string, charset: string): string {
    if kind == Multipart then kind else kind + " " + charset
  }

  /** Header.getValue, by kind of header. */
  function Value(c: Codec, h: Header): (r: Result<string>)
    ensures r.Err? <==> (h.From? && Addresses.Text(h.sender).Err?) || (h.To? && JoinedTexts(h.recipients, "\n").Err?)
    ensures h.From? ==> r == Addresses.Text(h.sender)
    ensures h.To? ==> r == JoinedTexts(h.recipients, "\n")
    ensures h.Subject? ==> r == Ok(h.subject)
    ensures h.Date? ==> r == Ok(c.isoOffset(h.date))
    ensures h.ContentType? ==> r == Ok(ContentValue(h.kind, h.charset))
  {
    match h
    case From(a) => Addresses.Text(a)
    case To(rs) => JoinedTexts(rs, "\n")
    case Subject(s) => Ok(s)
    case Date(d) => Ok(c.isoOffset(d))
    case ContentType(k, cs) => Ok(ContentValue(k, cs))
  }

  /**
   * Two admitted Content-Type headers show the same value exactly when their
   * kinds agree and, unless the kind is multipart/alternative, their charsets.
   */
  lemma ContentValueIdentifies(k1: string, cs1: string, k2: string, cs2: string)
    requires ContentOk(k1, cs1) && ContentOk(k2, cs2)
    ensures ContentValue(k1, cs1) == ContentValue(k2, cs2) <==>
            k1 == k2 && (k1 == Multipart || cs1 == cs2)
  {
    if ContentValue(k1, cs1) == ContentValue(k2, cs2) {
      var v := ContentValue(k1, cs1);
      if k1 == Multipart || k2 == Multipart {
        assert |v| == 21 ==> k1 == Multipart && k2 == Multipart;
      } else {
        assert v[..|k1|] == k1 && v[..|k2|] == k2;
        assert v[4] == k1[4] == k2[4];
        assert k1 == k2;
        assert v[|k1| + 1..] == cs1 && v[|k2| + 1..] == cs2;
      }
    }
  }

  /** The two fixed openings of a ContentHeader rendering. */
  const MimeVersionLine: string := "MIME-Version: 1.0\n"
  const ContentTypeTag: string := "Content-Type: "

  /** ContentHeader.toString: MIME-Version and boundary lines, or the charset and transfer-encoding lines. */

  function ContentText(kind: string, charset: string): string {
    if kind == Multipart then
      MimeVersionLine + ContentTypeTag + kind + "; boundary=frontier"
    else
      ContentTypeTag + kind + "; charset=\"" + charset + "\""
        + (if charset != UsAscii then Base64Line else "")
  }

  predicate EndsWith(s: string, suffix: string) {
    |suffix| <= |s| && s[|s| - |suffix|..] == suffix
  }

  /** The multipart rendering ignores the charset: the MIME-Version line, the kind and the boundary parameter. */
  lemma ContentTextMultipart(charset: string)
    ensures ContentText(Multipart, charset) == ContentText(Multipart, "")
    ensures StartsWith(MimeVersionLine + ContentTypeTag + Multipart, ContentText(Multipart, charset))
    ensures EndsWith(ContentText(Multipart, charset), "; boundary=frontier")
  {
    var head := MimeVersionLine + ContentTypeTag + Multipart;
    var t := ContentText(Multipart, charset);
    assert t == head + "; boundary=frontier";
    assert t[..|head|] == head;
    assert t[|t| - 19..] == "; boundary=frontier";
  }

  /** Any other rendering opens with the kind and the quoted charset. */
  lemma ContentTextHead(kind: string, charset: string)
    requires kind != Multipart
    ensures StartsWith(ContentTypeTag + kind + "; charset=\"" + charset + "\"", ContentText(kind, charset))
  {
    var head := ContentTypeTag + kind + "; charset=\"" + charset + "\"";
    var t := ContentText(kind, charset);
    assert t == head + (if charset != UsAscii then Base64Line else "");
    assert t[..|head|] == head;
  }

  /** Any other rendering ends with the base64 line iff the charset is not us-ascii. */
  lemma ContentTextBase64(kind: string, charset: string)
    requires kind != Multipart
    ensures EndsWith(ContentText(kind, charset), Base64Line) <==> charset != UsAscii
  {
    var head := ContentTypeTag + kind + "; charset=\"" + charset + "\"";
    var t := ContentText(kind, charset);
    if charset != UsAscii {
      assert t == head + Base64Line;
      assert t[|t| - |Base64Line|..] == Base64Line;
    } else {
      assert t == head;
      assert t[|t| - 1] == '"' != Base64Line[|Base64Line| - 1];
    }
  }

  /** toString, which toSequence stores: the type, a colon, then the kind's own rendering. */
  function Render(c: Codec, h: Header): Result<string> {
    match h
    case From(a) =>
      var t :- Addresses.Text(a);
      Ok("From: " + t)
    case To(rs) =>
      var t :- JoinedTexts(rs, ", ");
      Ok("To: " + t)
    case Subject(s) => Ok("Subject: " + EncodedSubject(c, s))
    case Date(d) => Ok("Date: " + c.rfc1123(d))
    case ContentType(k, cs) => Ok(ContentText(k, cs))
  }

  /**
   * The rendering and the value fail together (both read every address), and
   * the rendering carries the type and the value: verbatim for From, the same
   * renderings under another separator for To, the wire form for Subject.
   */
  lemma RenderAgreesWithValue(c: Codec, h: Header)
    ensures Render(c, h).Ok? <==> Value(c, h).Ok?
    ensures h.From? && Render(c, h).Ok? ==> Render(c, h).value == Type(h) + ": " + Value(c, h).value
    ensures h.To? && Render(c, h).Ok? ==>
              && Render(c, h).value == Type(h) + ": " + Join(Texts(h.recipients), ", ")
              && Value(c, h).value == Join(Texts(h.recipients), "\n")
    ensures h.Subject? ==> Render(c, h).value == Type(h) + ": " + EncodedSubject(c, Value(c, h).value)
  {
  }

  /** Every rendering names its header's type, followed by a colon and a space. */
  lemma RenderNamesType(c: Codec, h: Header)
    requires Render(c, h).Ok?
    ensures Contains(Render(c, h).value, Type(h) + ": ")
  {
    match h
    case From(a) =>
      ContainsPrefix("From: ", Addresses.Text(a).value);
    case To(rs) =>
      ContainsPrefix("To: ", JoinedTexts(rs, ", ").value);
    case Subject(subject) =>
      ContainsPrefix("Subject: ", EncodedSubject(c, subject));
    case Date(d) =>
      ContainsPrefix("Date: ", c.rfc1123(d));
    case ContentType(k, cs) =>
      assert Type(h) + ": " == ContentTypeTag;
      ContentTextNamesType(k, cs);
  }

  lemma ContentTextNamesType(kind: string, charset: string)
    ensures Contains(ContentText(kind, charset), ContentTypeTag)
  {
    if kind == Multipart {
      ContainsInfix(MimeVersionLine, ContentTypeTag, kind);
      ContainsExtend(MimeVersionLine + ContentTypeTag + kind, ContentTypeTag, "; boundary=frontier");
    } else {
      var s := ContentTypeTag + kind;
      ContainsPrefix(ContentTypeTag, kind);
      ContainsExtend(s, ContentTypeTag, "; charset=\"");
      ContainsExtend(s + "; charset=\"", ContentTypeTag, charset);
      ContainsExtend(s + "; charset=\"" + charset, ContentTypeTag, "\"");
      ContainsExtend(s + "; charset=\"" + charset + "\"", ContentTypeTag, if charset != UsAscii then Base64Line else "");
    }
  }

  /** Header.toSequence: the rendering, refused (ASCIICharSequence.of) unless it is ASCII. */
  function ToSequence(c: Codec, h: Header): (r: Result<string>)
    ensures r.Ok? ==> IsAscii(r.value)
    ensures r.Ok? <==> Render(c, h).Ok? && IsAscii(Render(c, h).value)
    ensures r.Ok? ==> r == Render(c, h)
  {
    var t :- Render(c, h);
    if IsAscii(t) then Ok(t) else Err(IllegalArgument)
  }

  /** The display names a header carries are ASCII. */
  predicate AsciiNames(h: Header) {
    match h
    case From(a) => IsAscii(a.display)
    case To(rs) => forall i :: 0 <= i < |rs| ==> IsAscii(rs[i].display)
    case _ => true
  }

  /** The fixed pieces of a Content-Type rendering are ASCII. */
  lemma KindsAreAscii()
    ensures IsAscii(Multipart) && IsAscii(TextPlain) && IsAscii(TextHtml)
  {
  }

  lemma CharsetsAreAscii()
    ensures IsAscii(Utf8) && IsAscii(UsAscii) && IsAscii(Base64Line)
  {
  }

  lemma OpeningsAreAscii()
    ensures IsAscii(MimeVersionLine) && IsAscii(ContentTypeTag)
  {
  }

  /** The type tags of the other four headers are ASCII. */
  lemma TagsAreAscii()
    ensures IsAscii("From: ") && IsAscii("To: ") && IsAscii("Subject: ") && IsAscii("Date: ")
  {
  }

  lemma ContentTextIsAscii(kind: string, charset: string)
    requires ContentOk(kind, charset)
    ensures IsAscii(ContentText(kind, charset))
  {
    KindsAreAscii();
    CharsetsAreAscii();
    OpeningsAreAscii();
    if kind == Multipart {
      var a := MimeVersionLine + ContentTypeTag;
      AsciiConcat(MimeVersionLine, ContentTypeTag);
      AsciiConcat(a, kind);
      AsciiConcat(a + kind, "; boundary=frontier");
    } else {
      var a := ContentTypeTag;
      var head := a + kind + "; charset=\"" + charset + "\"";
      AsciiConcat(a, kind);
      AsciiConcat(a + kind, "; charset=\"");
      AsciiConcat(a + kind + "; charset=\"", charset);
      AsciiConcat(a + kind + "; charset=\"" + charset, "\"");
      if charset != UsAscii {
        AsciiConcat(head, Base64Line);
        assert ContentText(kind, charset) == head + Base64Line;
      } else {
        assert ContentText(kind, charset) == head;
      }
    }
  }

  lemma RecipientsTextIsAscii(rs: seq<Addresses.Address>, sep: string)
    requires IsAscii(sep) && JoinedTexts(rs, sep).Ok?
    requires forall i :: 0 <= i < |rs| ==> Addresses.Valid(rs[i]) && IsAscii(rs[i].display)
    ensures IsAscii(JoinedTexts(rs, sep).value)
  {
    forall i | 0 <= i < |rs| ensures IsAscii(Texts(rs)[i]) {
      Addresses.TextIsAscii(rs[i]);
    }
    JoinAscii(Texts(rs), sep);
  }

  /**
   * Every valid header whose display names are ASCII and which renders can be
   * stored: its rendering is ASCII, given well-behaved encoders.
   */
  lemma HeaderIsStorable(c: Codec, h: Header)
    requires Sound(c) && ValidHeader(h) && AsciiNames(h) && Render(c, h).Ok?
    ensures ToSequence(c, h) == Render(c, h)
  {
    TagsAreAscii();
    match h
    case From(a) =>
      Addresses.TextIsAscii(a);
      AsciiConcat("From: ", Addresses.Text(a).value);
    case To(rs) =>
      RecipientsTextIsAscii(rs, ", ");
      AsciiConcat("To: ", JoinedTexts(rs, ", ").value);
    case Subject(s) =>
      AsciiConcat("Subject: ", EncodedSubject(c, s));
    case Date(d) =>
      AsciiConcat("Date: ", c.rfc1123(d));
    case ContentType(k, cs) =>
      ContentTextIsAscii(k, cs);
  }

  // ---- compareTo ----

  /** Element-wise Address equality of two lists (List.equals over Address.equals). */
  predicate ListsEqual(xs: seq<Addresses.Address>, ys: seq<Addresses.Address>) {
    |xs| == |ys| && forall i :: 0 <= i < |xs| ==> Addresses.Equal(xs[i], ys[i])
  }

  /**
   * The lexicographic comparator RecipientHeader.compareTo uses: the first
   * pair of addresses that differ decides, and a proper prefix sorts first.
   */
  function LexCompare(xs: seq<Addresses.Address>, ys: seq<Addresses.Address>): (r: int)
    ensures r == 0 <==> ListsEqual(xs, ys)
  {
    if xs == [] then (if ys == [] then 0 else -1)
    else if ys == [] then 1
    else
      var first := Addresses.Compare(xs[0], ys[0]);
      if first != 0 then first
      else
        var rest := LexCompare(xs[1..], ys[1..]);
        assert ListsEqual(xs, ys) <==> ListsEqual(xs[1..], ys[1..]) by {
          if ListsEqual(xs[1..], ys[1..]) {
            forall i | 0 < i < |xs| ensures Addresses.Equal(xs[i], ys[i]) {
              assert xs[1..][i - 1] == xs[i] && ys[1..][i - 1] == ys[i];
            }
          }
        }
        rest
  }

  lemma {:induction false} LexAntisymmetric(xs: seq<Addresses.Address>, ys: seq<Addresses.Address>)
    ensures LexCompare(xs, ys) == -LexCompare(ys, xs)
  {
    if xs != [] && ys != [] {
      Addresses.CompareAntisymmetric(xs[0], ys[0]);
      LexAntisymmetric(xs[1..], ys[1..]);
    }
  }

  lemma {:induction false} LexTransitive(xs: seq<Addresses.Address>, ys: seq<Addresses.Address>, zs: seq<Addresses.Address>)
    requires LexCompare(xs, ys) <= 0 && LexCompare(ys, zs) <= 0
    ensures LexCompare(xs, zs) <= 0
  {
    if xs != [] {
      assert ys != [] && zs != [];
      var x, y, z := xs[0], ys[0], zs[0];
      Addresses.CompareAntisymmetric(x, y);
      Addresses.CompareAntisymmetric(y, z);
      Addresses.CompareTransitive(x, y, z);
      if Addresses.Compare(x, z) == 0 {
        Addresses.CompareRespectsEqual(x, z, y);
        LexTransitive(xs[1..], ys[1..], zs[1..]);
      }
    }
  }

  /** The first position where the addresses differ decides. */
  lemma {:induction false} LexFirstMismatch(xs: seq<Addresses.Address>, ys: seq<Addresses.Address>, k: nat)
    requires k < |xs| && k < |ys|
    requires forall i :: 0 <= i < k ==> Addresses.Equal(xs[i], ys[i])
    requires !Addresses.Equal(xs[k], ys[k])
    ensures LexCompare(xs, ys) == Addresses.Compare(xs[k], ys[k])
  {
    if k > 0 {
      assert Addresses.Equal(xs[0], ys[0]);
      LexFirstMismatch(xs[1..], ys[1..], k - 1);
    }
  }

  /** A list that agrees with a longer one on all its positions sorts first. */
  lemma {:induction false} LexProperPrefix(xs: seq<Addresses.Address>, ys: seq<Addresses.Address>)
    requires |xs| < |ys|
    requires forall i :: 0 <= i < |xs| ==> Addresses.Equal(xs[i], ys[i])
    ensures LexCompare(xs, ys) < 0
  {
    if xs != [] {
      assert Addresses.Equal(xs[0], ys[0]);
      forall i | 0 <= i < |xs[1..]| ensures Addresses.Equal(xs[1..][i], ys[1..][i]) {
        assert xs[1..][i] == xs[i + 1] && ys[1..][i] == ys[i + 1];
      }
      LexProperPrefix(xs[1..], ys[1..]);
    }
  }

  /** Two headers of one comparable kind (Content-Type is not Comparable). */
  predicate Comparable(h1: Header, h2: Header) {
    || (h1.From? && h2.From?) || (h1.To? && h2.To?)
    || (h1.Subject? && h2.Subject?) || (h1.Date? && h2.Date?)
  }

  /**
   * compareTo of the four Comparable kinds: Address order of the senders,
   * lexicographic order of the recipients, String order of the decoded
   * subjects, date order.
   */
  function Compare(h1: Header, h2: Header): (r: int)
    requires Comparable(h1, h2)
    ensures h1.From? ==> (r == 0 <==> Addresses.Equal(h1.sender, h2.sender))
    ensures h1.To? ==> (r == 0 <==> ListsEqual(h1.recipients, h2.recipients))
    ensures h1.Subject? || h1.Date? ==> (r == 0 <==> h1 == h2)
  {
    match h1
    case From(a) => Addresses.Compare(a, h2.sender)
    case To(rs) => LexCompare(rs, h2.recipients)
    case Subject(s) => Strings.Compare(s, h2.subject)
    case Date(d) => Dates.Compare(d, h2.date)
  }

  /** Each compareTo is a total preorder: antisymmetric in sign and transitive. */
  lemma CompareIsTotalPreorder(h1: Header, h2: Header, h3: Header)
    requires Comparable(h1, h2) && Comparable(h2, h3)
    ensures Compare(h1, h2) < 0 <==> Compare(h2, h1) > 0
    ensures Compare(h1, h2) <= 0 && Compare(h2, h3) <= 0 ==> Compare(h1, h3) <= 0
  {
    match h1
    case From(a) =>
      Addresses.CompareAntisymmetric(a, h2.sender);
      if Compare(h1, h2) <= 0 && Compare(h2, h3) <= 0 {
        Addresses.CompareTransitive(a, h2.sender, h3.sender);
      }
    case To(rs) =>
      LexAntisymmetric(rs, h2.recipients);
      if Compare(h1, h2) <= 0 && Compare(h2, h3) <= 0 {
        LexTransitive(rs, h2.recipients, h3.recipients);
      }
    case Subject(s) =>
      Strings.CompareAntisymmetric(s, h2.subject);
      if Compare(h1, h2) <= 0 && Compare(h2, h3) <= 0 {
        Strings.CompareTransitive(s, h2.subject, h3.subject);
      }
    case Date(d) =>
      Dates.CompareIsTotalOrder(d, h2.date, h3.date);
  }

  // ---- equals ----

  /**
   * equals: headers of different kinds differ; otherwise Address equality,
   * element-wise list equality, the stored subject against the other's wire
   * form, date equality, and equality of the (kind, charset) pair.
   */
  predicate Equals(c: Codec, h1: Header, h2: Header) {
    match (h1, h2)
    case (From(a), From(b)) => Addresses.Equal(a, b)
    case (To(xs), To(ys)) => ListsEqual(xs, ys)
    case (Subject(s), Subject(t)) => s == EncodedSubject(c, t)
    case (Date(d), Date(e)) => d == e
    case (ContentType(k1, cs1), ContentType(k2, cs2)) => k1 == k2 && cs1 == cs2
    case _ => false
  }

  /**
   * equals agrees with compareTo for senders, recipients and dates, and for
   * subjects when the other subject is ASCII.
   */
  lemma EqualsAgreesWithCompare(c: Codec, h1: Header, h2: Header)
    requires Comparable(h1, h2)
    requires h2.Subject? ==> IsAscii(h2.subject)
    ensures Equals(c, h1, h2) <==> Compare(h1, h2) == 0
  {
  }

  /**
   * Two distinct headers holding the same non-ASCII subject are not equal: the
   * stored text is compared with the other header's encoded word.
   */
  lemma DistinctForeignSubjectsDiffer(c: Codec, s: string)
    requires Sound(c) && !IsAscii(s)
    ensures !Equals(c, Subject(s), Subject(s))
  {
    assert IsAscii(c.encodeWord(s));
  }

  /** Equal senders and equal recipients are interchangeable in the header's order. */
  lemma EqualsRespectsCompare(c: Codec, h1: Header, h2: Header, h3: Header)
    requires Comparable(h1, h2) && Comparable(h2, h3) && (h1.From? || h1.To?)
    requires Equals(c, h1, h2)
    ensures Compare(h1, h3) == Compare(h2, h3)
  {
    if h1.To? {
      LexRespectsEqual(h1.recipients, h2.recipients, h3.recipients);
    }
  }

  lemma {:induction false} LexRespectsEqual(xs: seq<Addresses.Address>, ys: seq<Addresses.Address>, zs: seq<Addresses.Address>)
    requires ListsEqual(xs, ys)
    ensures LexCompare(xs, zs) == LexCompare(ys, zs)
  {
    if xs != [] && zs != [] {
      Addresses.CompareRespectsEqual(xs[0], ys[0], zs[0]);
      assert ListsEqual(xs[1..], ys[1..]) by {
        forall i | 0 <= i < |xs[1..]| ensures Addresses.Equal(xs[1..][i], ys[1..][i]) {
          assert xs[1..][i] == xs[i + 1] && ys[1..][i] == ys[i + 1];
        }
      }
      LexRespectsEqual(xs[1..], ys[1..], zs[1..]);
    }
  }
}
