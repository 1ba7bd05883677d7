/** Requests and responses as they are written, and that each is read as what it is: which bytes are
    one request, which are one response, and which response answers which request. */
module HttpWritten {
  import opened Basics
  import opened Wrappers
  import opened Bytes
  import opened Text
  import opened TextLaws
  import opened HttpHead
  import opened HttpHeadLaws
  import opened HttpStream
  import opened HttpFraming
  import opened HttpReframing
  import opened HttpFields
  import opened HttpResponse

  // ---- Requests ----

  /** The body a head asks for: none behind a CONNECT; otherwise chunks, that many bytes, or none, as
      the fields say, as long as they say one thing. */
  ghost predicate BodyFits(h: Head, body: Bytes) {
    if MethodIs(h.line, "CONNECT") then body == []
    else
      var codings, lengths := Codings(h.fields), Lengths(h.fields);
      && (forall i :: 0 <= i < |lengths| ==> lengths[i].Some? && lengths[i] == lengths[0])
      && (if codings != [] then
            && lengths == [] && IsChunked(codings[|codings| - 1])
            && (exists b: ChunkedBody :: b.Valid() && body == BodyText(b, 0))
          else |body| == if lengths == [] then 0 else lengths[0].value)
  }

  lemma FramingFits(h: Head, t: Bytes, n: nat)
    requires WellFormed(h) && n <= |t|
    ensures FramingOf(PrintHead(h)).Ok? && CopyOf(t, FramingOf(PrintHead(h)).value) == Whole(n) <==> BodyFits(h, t[..n])
  {
    hide MetaOf, WellFormed, PrintHead, Codings, Lengths, FramingFrom, IsChunked, BodyText, Chunks, MethodIs;
    MetaOfPrinted(h);
    assert LineMethod(h.line, CONNECT) <==> MethodIs(h.line, "CONNECT") by {
      WordsAreSpelled();
      MethodExactly(h.line, CONNECT, "CONNECT");
    }
    FramingIsExact(h.fields);
    ChunkedBodyIsFramed(t, n);
  }

  /** One request: the first request of a stream is this one, and ends at `n`, if and only if the bytes up
      to there are its head and a body that fits it. */
  lemma RequestIsWritten(s: Bytes, h: Head, body: Bytes, n: nat)
    ensures Next(s) == Some((Request(h, body), n)) <==>
      WellFormed(h) && BodyFits(h, body) && n <= |s| && s[..n] == PrintHead(h) + body
  {
    hide FramingOf, CopyOf, BodyFits, PrintHead, ParseHead, WellFormed;
    var e := FindBlank(s, 0);
    if Next(s) == Some((Request(h, body), n)) {
      BlockOfStream(s);
      ParsePrint(s[..e + 4]);
      hide FindBlank;
      var t := s[e + 4..];
      FramingFits(h, t, n - e - 4);
      assert s[..n] == s[..e + 4] + t[..n - e - 4];
    }
    if WellFormed(h) && BodyFits(h, body) && n <= |s| && s[..n] == PrintHead(h) + body {
      var head, t := PrintHead(h), s[|PrintHead(h)|..];
      assert s == head + t by { assert s[..|head|] == s[..n][..|head|] == head; }
      assert t[..|body|] == body by { assert t[..|body|] == s[..n][|head|..]; }
      PrintedBlock(h, t);
      hide FindBlank;
      FramingFits(h, t, |body|);
    }
  }

  // ---- Status lines ----

  ghost predicate Blank(s: Bytes) { forall i :: 0 <= i < |s| ==> s[i] == SP }

  ghost predicate OneWord(s: Bytes) { s != [] && SP !in s }

  /** A decimal numeral, with at most a plus sign before it. */
  predicate DecimalNumeral(s: Bytes, n: nat) {
    n <= U64_MAX && (Numeral(s, 10, n) || (s != [] && s[0] == '+' as int && Numeral(s[1..], 10, n)))
  }

  /** A status line: a version, then the status, with spaces around them, and anything behind. */
  ghost predicate StatusLine(line: Bytes, status: nat) {
    exists lead, version, gap, code, tail ::
      StatusParts(line, lead, version, gap, code, tail) && DecimalNumeral(code, status) && status <= 65535
  }

  ghost predicate StatusParts(line: Bytes, lead: Bytes, version: Bytes, gap: Bytes, code: Bytes, tail: Bytes) {
    && line == lead + version + gap + code + tail && Blank(lead) && OneWord(version) && gap != [] && Blank(gap)
    && OneWord(code) && (tail != [] ==> tail[0] == SP)
  }

  function Words(s: Bytes): seq<Bytes> { NonEmpty(Split(s, SP)) }

  lemma NonEmptyCons(p: Bytes, rest: seq<Bytes>)
    ensures NonEmpty([p] + rest) == (if p == [] then [] else [p]) + NonEmpty(rest)
    ensures NonEmpty([p]) == if p == [] then [] else [p]
  {
    assert ([p] + rest)[1..] == rest;
    var one: seq<Bytes> := [p];
    assert one[1..] == [];
  }

  lemma SplitCons(a: Bytes, s: Bytes)
    requires SP !in a
    ensures Split(a + [SP] + s, SP) == [a] + Split(s, SP) && Split(a, SP) == [a]
  {
    FindFirst(a, SP, s);
    assert (a + [SP] + s)[..|a|] == a && (a + [SP] + s)[|a| + 1..] == s;
  }

  lemma WordsSkip(s: Bytes)
    ensures Words([SP] + s) == Words(s) && Words([]) == []
  {
    hide Split, NonEmpty;
    SplitCons([], s);
    assert [] + [SP] + s == [SP] + s;
    NonEmptyCons([], Split(s, SP));
  }

  lemma {:induction false} WordsSkipAll(gap: Bytes, s: Bytes)
    requires Blank(gap)
    ensures Words(gap + s) == Words(s)
    decreases |gap|
  {
    hide Words;
    if gap == [] {
      assert gap + s == s;
    } else {
      assert gap + s == [SP] + (gap[1..] + s);
      WordsSkip(gap[1..] + s);
      WordsSkipAll(gap[1..], s);
    }
  }

  lemma WordsTake(w: Bytes, s: Bytes)
    requires OneWord(w) && (s != [] ==> s[0] == SP)
    ensures Words(w + s) == [w] + Words(s)
  {
    hide Split, NonEmpty;
    WordsSkip([]);
    if s == [] {
      SplitCons(w, []);
      assert w + s == w;
      NonEmptyCons(w, []);
    } else {
      var t := s[1..];
      assert s == [SP] + t && w + s == w + [SP] + t;
      SplitCons(w, t);
      NonEmptyCons(w, Split(t, SP));
      WordsSkip(t);
    }
  }

  /** A text is some spaces, then nothing, or a word and more. */
  lemma FirstWord(s: Bytes) returns (lead: Bytes, word: Bytes, rest: Bytes)
    ensures s == lead + word + rest && Blank(lead) && SP !in word && (rest != [] ==> rest[0] == SP)
    ensures word == [] ==> rest == []
  {
    var i := 0;
    while i < |s| && s[i] == SP
      invariant i <= |s| && Blank(s[..i])
    {
      i := i + 1;
    }
    var j := i;
    while j < |s| && s[j] != SP
      invariant i <= j <= |s| && SP !in s[i..j]
    {
      j := j + 1;
    }
    lead, word, rest := s[..i], s[i..j], s[j..];
  }

  lemma WordsOfParts(line: Bytes, lead: Bytes, version: Bytes, gap: Bytes, code: Bytes, tail: Bytes)
    requires StatusParts(line, lead, version, gap, code, tail)
    ensures Words(line) == [version, code] + Words(tail)
  {
    hide Words;
    var after := gap + (code + tail);
    assert line == lead + (version + after);
    WordsSkipAll(lead, version + after);
    WordsTake(version, after);
    WordsSkipAll(gap, code + tail);
    WordsTake(code, tail);
  }

  lemma PartsOfWords(line: Bytes) returns (lead: Bytes, version: Bytes, gap: Bytes, code: Bytes, tail: Bytes)
    requires |Words(line)| >= 2
    ensures StatusParts(line, lead, version, gap, code, tail)
  {
    hide Words;
    var rest;
    lead, version, rest := FirstWord(line);
    assert line == lead + (version + rest);
    WordsSkipAll(lead, version + rest);
    WordsSkip([]);
    assert version == [] ==> version + rest == [];
    WordsTake(version, rest);
    gap, code, tail := FirstWord(rest);
    assert rest == gap + (code + tail);
    WordsSkipAll(gap, code + tail);
    assert code == [] ==> code + tail == [];
    assert line == lead + version + gap + code + tail;
  }

  /** A response's status is read if and only if its first line is such a line. */
  lemma StatusExactly(h: Head, status: nat)
    requires WellFormed(h)
    ensures ParseStatus(PrintHead(h)) == Some(status) <==> StatusLine(h.line, status)
  {
    hide Words, StatusParts, DecimalNumeral, ParseU64;
    var words := Words(h.line);
    LineOfHead(h);
    hide PrintHead, FindCrlf, WellFormed;
    assert ParseStatus(PrintHead(h)) == Some(status) <==>
      |words| >= 2 && ParseU64(words[1], 10) == Some(status) && status <= 65535 by { StatusOfWords(h, status); }
    if |words| >= 2 {
      var lead, version, gap, code, tail := PartsOfWords(h.line);
      WordsOfParts(h.line, lead, version, gap, code, tail);
      DecimalExactly(code, status);
    }
    if lead, version, gap, code, tail :|
      StatusParts(h.line, lead, version, gap, code, tail) && DecimalNumeral(code, status) && status <= 65535
    {
      WordsOfParts(h.line, lead, version, gap, code, tail);
      DecimalExactly(code, status);
    }
  }

  lemma DecimalExactly(s: Bytes, n: nat)
    ensures ParseU64(s, 10) == Some(n) <==> DecimalNumeral(s, n)
  {
    hide Numeral, ParseU64;
    ParseU64Exactly(s, 10, n);
  }

  lemma StatusOfWords(h: Head, status: nat)
    requires FindCrlf(PrintHead(h), 0) == |h.line| < |PrintHead(h)| && PrintHead(h)[..|h.line|] == h.line
    ensures ParseStatus(PrintHead(h)) == Some(status) <==>
      var words := Words(h.line); |words| >= 2 && ParseU64(words[1], 10) == Some(status) && status <= 65535
  {
    hide PrintHead, FindCrlf, NonEmpty, Split, ParseU64;
  }

  lemma LineOfHead(h: Head)
    requires WellFormed(h)
    ensures FindCrlf(PrintHead(h), 0) == |h.line| < |PrintHead(h)| && PrintHead(h)[..|h.line|] == h.line
  {
    hide FindCrlf, PrintFields;
    FindCrlfAfter([], h.line, PrintFields(h.fields));
    assert [] + h.line + CRLF + PrintFields(h.fields) == PrintHead(h);
  }

  // ---- Responses ----

  /** The i-th field is the first with this name. */
  ghost predicate FirstNamed(fields: seq<Bytes>, i: int, name: Bytes) {
    FieldNamed(fields, i, name) && forall j :: 0 <= j < i ==> !Names(fields[j], name)
  }

  lemma {:induction false} FirstValueExactly(fields: seq<Bytes>, name: Bytes)
    ensures FirstValue(fields, name).None? <==> forall i :: 0 <= i < |fields| ==> !Names(fields[i], name)
    ensures forall i :: FirstNamed(fields, i, name) ==> FirstValue(fields, name) == Some(FieldValue(fields[i]))
  {
    hide EqIgnoreCase;
    if fields != [] {
      FirstValueExactly(fields[1..], name);
      assert forall i :: 0 <= i < |fields| - 1 ==> fields[1..][i] == fields[i + 1];
      assert forall i :: 0 < i < |fields| ==> fields[i] == fields[1..][i - 1];
      forall i | FirstNamed(fields, i, name) ensures FirstValue(fields, name) == Some(FieldValue(fields[i])) {
        if i > 0 { assert FirstNamed(fields[1..], i - 1, name); }
      }
    }
  }

  lemma {:induction false} FirstExists(fields: seq<Bytes>, name: Bytes) returns (i: nat)
    requires FirstValue(fields, name).Some?
    ensures FirstNamed(fields, i, name)
  {
    hide EqIgnoreCase;
    if Names(fields[0], name) {
      i := 0;
    } else {
      i := FirstExists(fields[1..], name);
      assert forall j :: 0 < j < |fields| ==> fields[j] == fields[1..][j - 1];
      i := i + 1;
    }
  }

  /** The first Transfer-Encoding field lists chunked. */
  ghost predicate ChunkedSaid(fields: seq<Bytes>) {
    exists i :: FirstNamed(fields, i, Ascii("transfer-encoding")) && HasWord(FieldValue(fields[i]), Ascii("chunked"))
  }

  ghost predicate HasWord(value: Bytes, word: Bytes) {
    exists elements, k :: ListOf(value, elements) && 0 <= k < |elements| && Is(elements[k], word)
  }

  /** The first Content-Length field is a numeral of `n`. */
  ghost predicate LengthSaid(fields: seq<Bytes>, n: nat) {
    exists i :: FirstNamed(fields, i, Ascii("content-length")) && DecimalNumeral(FieldValue(fields[i]), n)
  }

  lemma HasWordExactly(value: Bytes, word: Bytes)
    ensures HasWord(value, word) <==> HasToken(Split(value, COMMA), word)
  {
    hide Split, HasToken, ListOf, Is;
    var elements := Split(value, COMMA);
    ListExactly(value, elements);
    ListHas(value, elements, word);
    if elements', k :| ListOf(value, elements') && 0 <= k < |elements'| && Is(elements'[k], word) {
      ListExactly(value, elements');
    }
  }

  lemma ChunkedSaidExactly(fields: seq<Bytes>)
    ensures SaysChunked(fields) <==> ChunkedSaid(fields)
  {
    WordsAreSpelled();
    hide FirstValue, HasToken, Split, HasWord, EqIgnoreCase;
    FirstValueExactly(fields, TRANSFER_ENCODING);
    if SaysChunked(fields) {
      var i := FirstExists(fields, TRANSFER_ENCODING);
      HasWordExactly(FieldValue(fields[i]), CHUNKED);
    }
    if i :| FirstNamed(fields, i, TRANSFER_ENCODING) && HasWord(FieldValue(fields[i]), CHUNKED) {
      HasWordExactly(FieldValue(fields[i]), CHUNKED);
    }
  }

  lemma LengthSaidExactly(fields: seq<Bytes>, n: nat)
    ensures SaidLength(fields) == Some(n) <==> LengthSaid(fields, n)
  {
    WordsAreSpelled();
    hide FirstValue, ParseU64, DecimalNumeral, EqIgnoreCase;
    FirstValueExactly(fields, CONTENT_LENGTH);
    if SaidLength(fields) == Some(n) {
      var i := FirstExists(fields, CONTENT_LENGTH);
      DecimalExactly(FieldValue(fields[i]), n);
    }
    if i :| FirstNamed(fields, i, CONTENT_LENGTH) && DecimalNumeral(FieldValue(fields[i]), n) {
      DecimalExactly(FieldValue(fields[i]), n);
    }
  }

  /** A response to a HEAD request has no body, nor has one with an interim status, 204 or 304. */
  predicate Bodiless(m: Meta, status: nat) { m.headOnly || status < 200 || status in {204, 304} }

  /** The response opens the tunnel its request asked for. */
  predicate OpensTunnel(m: Meta, status: nat) { if status == 101 then m.upgrade else m.connect && status / 100 == 2 }

  /** An interim response, which answers nothing. */
  predicate IsInterim(status: nat) { status / 100 == 1 && status != 101 }

  /** A response nothing asked for. */
  predicate Unsolicited(m: Meta, status: nat) { status == 101 && !m.upgrade && !m.connect }

  /** The body a response's head asks for, if it frames one: none; chunks if it says so; or that many
      bytes. */
  ghost predicate AnswerFits(m: Meta, status: nat, fields: seq<Bytes>, body: Bytes) {
    if Bodiless(m, status) then body == []
    else if ChunkedSaid(fields) then exists b: ChunkedBody :: b.Valid() && body == BodyText(b, 0)
    else LengthSaid(fields, |body|)
  }

  /** A head that has a body and says nothing about where it ends. */
  ghost predicate Unframed(m: Meta, status: nat, fields: seq<Bytes>) {
    !Bodiless(m, status) && !ChunkedSaid(fields) && forall n :: !LengthSaid(fields, n)
  }

  /** The body the head's framing asks for, as the pump finds it. */
  lemma AnswerFraming(m: Meta, status: nat, fields: seq<Bytes>, t: Bytes, n: nat)
    requires n <= |t|
    ensures var body := ResponseBodyOf(fields, status, m.headOnly);
      && (body.ToTheEnd? <==> Unframed(m, status, fields))
      && (body.Framed? && CopyOf(t, body.framing) == Whole(n) <==> AnswerFits(m, status, fields, t[..n]))
  {
    hide SaysChunked, SaidLength, ChunkedSaid, LengthSaid, Chunks, BodyText;
    ChunkedSaidExactly(fields);
    LengthSaidExactly(fields, n);
    ChunkedBodyIsFramed(t, n);
    if SaidLength(fields).Some? { LengthSaidExactly(fields, SaidLength(fields).value); }
    forall k: nat ensures SaidLength(fields) == Some(k) <==> LengthSaid(fields, k) { LengthSaidExactly(fields, k); }
  }

  lemma FrontOfWritten(h: Head, status: nat, rest: Bytes)
    requires WellFormed(h)
    ensures StatusLine(h.line, status) ==>
      FrontOf(PrintHead(h) + rest) == if IsInterim(status) then Passing(|PrintHead(h)|)
        else Answer(|PrintHead(h)|, status)
    ensures (forall k :: !StatusLine(h.line, k)) ==> FrontOf(PrintHead(h) + rest) == Unreadable
  {
    hide ParseStatus, StatusLine, PrintHead, WellFormed;
    var u := PrintHead(h) + rest;
    PrintedBlock(h, rest);
    assert u[..|PrintHead(h)|] == PrintHead(h);
    StatusExactly(h, status);
    if ParseStatus(PrintHead(h)).Some? { StatusExactly(h, ParseStatus(PrintHead(h)).value); }
  }

  /** What follows a final head: everything raw behind one that opens a tunnel or does not say where its
      body ends; nothing behind one nobody asked for; otherwise the body, and then the rest. */
  lemma FollowingWritten(h: Head, status: nat, m: Meta, t: Bytes, n: nat)
    requires WellFormed(h) && n <= |t|
    ensures var u := PrintHead(h) + t; var f := FollowingOf(u, |PrintHead(h)|, m, status);
      if OpensTunnel(m, status) then f == Raw
      else if Unsolicited(m, status) then f == Refused
      else
        && (f == Raw <==> Unframed(m, status, h.fields))
        && (f == Carried(n, false) <==> AnswerFits(m, status, h.fields, t[..n]))
        && (!Bodiless(m, status) && !ChunkedSaid(h.fields) && LengthSaid(h.fields, n + |t| + 1) ==>
            f == Carried(|t|, true))
  {
    hide PrintHead, ParseHead, WellFormed, ChunkedSaid, LengthSaid, SaysChunked, SaidLength, Chunks, AnswerFits,
      Unframed;
    var u := PrintHead(h) + t;
    assert u[..|PrintHead(h)|] == PrintHead(h) && u[|PrintHead(h)|..] == t;
    PrintedBlock(h, t);
    AnswerFraming(m, status, h.fields, t, n);
    ChunkedSaidExactly(h.fields);
    LengthSaidExactly(h.fields, n + |t| + 1);
  }

  /** A written response answers the request it comes to, and the rest of the stream the requests behind
      it; an interim one answers none; one that opens a tunnel, or whose body has no end of its own, is
      the last. */
  lemma ResponseIsWritten(h: Head, status: nat, body: Bytes, rest: Bytes, m: Meta, ms: seq<Meta>)
    requires WellFormed(h) && StatusLine(h.line, status)
    ensures IsInterim(status) ==> Answers(PrintHead(h) + rest, ms) == Answers(rest, ms)
    ensures !IsInterim(status) &&
            (OpensTunnel(m, status) || Unsolicited(m, status) || Unframed(m, status, h.fields)) ==>
      Answers(PrintHead(h) + rest, [m] + ms) == [status]
    ensures !IsInterim(status) && !OpensTunnel(m, status) && !Unsolicited(m, status) &&
            AnswerFits(m, status, h.fields, body) ==>
      Answers(PrintHead(h) + body + rest, [m] + ms) == [status] + Answers(rest, ms)
  {
    hide StatusLine, WellFormed, PrintHead, AnswerFits, Unframed, FrontOf, FollowingOf;
    assert ([m] + ms)[1..] == ms;
    var head := PrintHead(h);
    FrontOfWritten(h, status, rest);
    assert (head + rest)[|head|..] == rest;
    FollowingWritten(h, status, m, rest, 0);
    var t := body + rest;
    assert head + body + rest == head + t && t[..|body|] == body;
    FrontOfWritten(h, status, t);
    FollowingWritten(h, status, m, t, |body|);
    assert (head + t)[|head| + |body|..] == rest;
  }

  /** A stream that starts with no status line answers nothing. */
  lemma NoStatusNoAnswer(h: Head, rest: Bytes, ms: seq<Meta>)
    requires WellFormed(h) && forall k :: !StatusLine(h.line, k)
    ensures Answers(PrintHead(h) + rest, ms) == [] && Answers([], ms) == []
  {
    hide StatusLine, WellFormed, PrintHead;
    FrontOfWritten(h, 0, rest);
    hide FrontOf;
    assert FrontOf([]) == Closes by { NothingCloses(); }
  }

  lemma NothingCloses()
    ensures FrontOf([]) == Closes
  {
  }
}
