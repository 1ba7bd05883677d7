/** What the field helpers read off a head: names, values, lists, and which request a head is. */
module HttpFields {
  import opened Wrappers
  import opened Bytes
  import opened TextLaws
  import opened HttpHead
  import opened HttpStream
  import opened HttpReframing

  /** The words the proxy looks for. */
  lemma WordsAreSpelled()
    ensures TRANSFER_ENCODING == Ascii("transfer-encoding") && CONTENT_LENGTH == Ascii("content-length")
    ensures CONNECTION == Ascii("connection") && UPGRADE == Ascii("upgrade") && CHUNKED == Ascii("chunked")
    ensures CONNECT == Ascii("CONNECT") && HEAD == Ascii("HEAD")
  {
  }

  // ---- Field lines ----

  /** A line's name is what stands before its first colon, its value what stands behind, both trimmed. */
  lemma FieldExactly(name: Bytes, value: Bytes, wanted: Bytes)
    requires COLON !in name
    ensures var f := name + [COLON] + value;
      && Name(f) == name && FindByte(f, COLON) < |f| && FieldValue(f) == Trim(value)
      && (Names(f, wanted) <==> EqIgnoreCase(Trim(name), wanted))
  {
    var f := name + [COLON] + value;
    FindFirst(name, COLON, value);
    assert f[..|name|] == name && f[|name| + 1..] == value;
  }

  /** A line without a colon has no name. */
  lemma NoColonNoName(f: Bytes, wanted: Bytes)
    requires COLON !in f
    ensures !Names(f, wanted)
  {
  }

  /** A line that continues the one before is refused as such, and any other without a colon. */
  lemma FoldsAndColons(f: Bytes)
    requires f != []
    ensures LineError(f) == Some(ObsFold) <==> f[0] as char in " \t"
    ensures LineError(f) == Some(NoColon) <==> f[0] as char !in " \t" && COLON !in f
  {
    assert " \t" == [' ', '\t'];
    if FindByte(f, COLON) < |f| {
      assert f[FindByte(f, COLON)] == COLON;
    } else {
      assert forall j :: 0 <= j < |f| ==> f[j] != COLON;
    }
  }

  /** Any other line is accepted if and only if its name is not empty and has no white space in it. */
  lemma AcceptedNames(name: Bytes, value: Bytes)
    requires COLON !in name && (name + [COLON] + value)[0] as char !in " \t"
    ensures var f := name + [COLON] + value;
      && (LineError(f).None? <==> name != [] && forall i :: 0 <= i < |name| ==> name[i] as char !in SPACES)
      && (LineError(f).Some? ==> LineError(f) == Some(MalformedName))
  {
    assert " \t" == [' ', '\t'];
    FieldExactly(name, value, []);
    HasWhitespaceExactly(name);
    hide FindByte, HasWhitespace;
  }

  /** A header is owned if some rewrite names it. */
  lemma {:induction false} OwnedExactly(name: Bytes, rewrites: seq<HeaderRewrite>)
    ensures Owned(name, rewrites) <==> exists i :: 0 <= i < |rewrites| && EqIgnoreCase(rewrites[i].name, name)
  {
    hide EqIgnoreCase;
    if rewrites != [] {
      OwnedExactly(name, rewrites[1..]);
      if Owned(name, rewrites[1..]) {
        var i :| 0 <= i < |rewrites[1..]| && EqIgnoreCase(rewrites[1..][i].name, name);
        assert EqIgnoreCase(rewrites[i + 1].name, name);
      }
      if i :| 0 < i < |rewrites| && EqIgnoreCase(rewrites[i].name, name) {
        assert rewrites[1..][i - 1] == rewrites[i];
      }
    }
  }

  // ---- Lists ----

  /** The value is these elements with commas between them. */
  ghost predicate ListOf(value: Bytes, elements: seq<Bytes>) {
    elements != [] && NoneHolds(elements, COMMA) && value == Joined(elements, COMMA)
  }

  predicate Is(element: Bytes, word: Bytes) { EqIgnoreCase(Trim(element), word) }

  /** A list can be read in one way only. */
  lemma ListExactly(value: Bytes, elements: seq<Bytes>)
    ensures ListOf(value, elements) <==> elements == Split(value, COMMA)
  {
    hide Split, Joined, NoneHolds;
    JoinedSplit(value, COMMA);
    if ListOf(value, elements) { SplitJoined(elements, COMMA); }
  }

  lemma {:induction false} TokenExactly(elements: seq<Bytes>, word: Bytes)
    ensures HasToken(elements, word) <==> exists i :: 0 <= i < |elements| && Is(elements[i], word)
  {
    hide EqIgnoreCase, Trim;
    if elements != [] {
      TokenExactly(elements[1..], word);
      if HasToken(elements[1..], word) {
        var i :| 0 <= i < |elements[1..]| && Is(elements[1..][i], word);
        assert Is(elements[i + 1], word);
      }
      if i :| 0 < i < |elements| && Is(elements[i], word) {
        assert elements[1..][i - 1] == elements[i];
      }
    }
  }

  /** A list has a word if and only if one of its elements, trimmed, is that word in any case. */
  lemma ListHas(value: Bytes, elements: seq<Bytes>, word: Bytes)
    requires ListOf(value, elements)
    ensures HasToken(Split(value, COMMA), word) <==> exists i :: 0 <= i < |elements| && Is(elements[i], word)
  {
    ListExactly(value, elements);
    TokenExactly(elements, word);
  }

  /** A transfer coding ends in chunked if and only if its last element, trimmed, is that word in any case. */
  lemma LastCoding(value: Bytes, elements: seq<Bytes>)
    requires ListOf(value, elements)
    ensures FinalChunked(value) <==> Is(elements[|elements| - 1], Ascii("chunked"))
  {
    WordsAreSpelled();
    ListExactly(value, elements);
  }

  // ---- Which request a head is ----

  ghost predicate FieldNamed(fields: seq<Bytes>, i: int, name: Bytes) { 0 <= i < |fields| && Names(fields[i], name) }

  /** The i-th field is a Connection list that has the word. */
  ghost predicate ConnectionLists(fields: seq<Bytes>, i: int, word: Bytes) {
    FieldNamed(fields, i, CONNECTION) &&
    exists elements, k ::
      ListOf(FieldValue(fields[i]), elements) && 0 <= k < |elements| && Is(elements[k], word)
  }

  lemma {:induction false} NamedExactly(fields: seq<Bytes>, name: Bytes)
    ensures AnyNamed(fields, name) <==> exists i :: FieldNamed(fields, i, name)
  {
    hide Names;
    if fields != [] {
      NamedExactly(fields[1..], name);
      if AnyNamed(fields[1..], name) {
        var i :| FieldNamed(fields[1..], i, name);
        assert FieldNamed(fields, i + 1, name);
      }
      if Names(fields[0], name) { assert FieldNamed(fields, 0, name); }
      if i :| FieldNamed(fields, i, name) {
        assert i > 0 ==> FieldNamed(fields[1..], i - 1, name);
      }
    }
  }

  lemma ConnectionListsExactly(fields: seq<Bytes>, i: int, word: Bytes)
    requires FieldNamed(fields, i, CONNECTION)
    ensures ConnectionLists(fields, i, word) <==> HasToken(Split(FieldValue(fields[i]), COMMA), word)
  {
    hide EqIgnoreCase, HasToken, Split, ListOf, Is;
    var value := FieldValue(fields[i]);
    var elements := Split(value, COMMA);
    ListExactly(value, elements);
    ListHas(value, elements, word);
    if elements', k :| ListOf(value, elements') && 0 <= k < |elements'| && Is(elements'[k], word) {
      ListExactly(value, elements');
    }
  }

  lemma {:induction false} ConnectionExactly(fields: seq<Bytes>, word: Bytes)
    ensures ConnectionHas(fields, word) <==> exists i :: ConnectionLists(fields, i, word)
  {
    hide Names, HasToken, Split, ListOf, Is, FieldValue;
    if fields != [] {
      ConnectionExactly(fields[1..], word);
      if Names(fields[0], CONNECTION) { ConnectionListsExactly(fields, 0, word); }
      if ConnectionHas(fields[1..], word) {
        var i :| ConnectionLists(fields[1..], i, word);
        assert fields[1..][i] == fields[i + 1];
        assert ConnectionLists(fields, i + 1, word);
      }
      if i :| ConnectionLists(fields, i, word) {
        if i > 0 {
          assert fields[1..][i - 1] == fields[i];
          assert ConnectionLists(fields[1..], i - 1, word);
        }
      }
    }
  }

  /** The request line starts with this method, in any case, and a space. */
  ghost predicate MethodIs(line: Bytes, method': string)
    requires forall i :: 0 <= i < |method'| ==> method'[i] < 128 as char
  {
    exists m, rest :: line == m + [SP] + rest && EqIgnoreCase(m, Ascii(method'))
  }

  /** Which request a head is: HEAD and CONNECT by its method; an upgrade if it is no CONNECT, has an
      Upgrade field, and some Connection field lists upgrade. */
  lemma RequestExactly(h: Head)
    requires WellFormed(h)
    ensures var m := MetaOf(PrintHead(h));
      && (m.headOnly <==> MethodIs(h.line, "HEAD")) && (m.connect <==> MethodIs(h.line, "CONNECT"))
      && (m.upgrade <==>
            && !MethodIs(h.line, "CONNECT")
            && (exists i :: FieldNamed(h.fields, i, Ascii("upgrade")))
            && (exists i :: ConnectionLists(h.fields, i, Ascii("upgrade"))))
  {
    WordsAreSpelled();
    hide AnyNamed, ConnectionHas, WellFormed, PrintHead, FieldNamed, ConnectionLists;
    MetaOfPrinted(h);
    MethodExactly(h.line, CONNECT, "CONNECT");
    MethodExactly(h.line, HEAD, "HEAD");
    NamedExactly(h.fields, UPGRADE);
    ConnectionExactly(h.fields, UPGRADE);
  }

  lemma MethodExactly(line: Bytes, word: Bytes, method': string)
    requires forall i :: 0 <= i < |method'| ==> method'[i] < 128 as char
    requires word == Ascii(method')
    ensures LineMethod(line, word) <==> MethodIs(line, method')
  {
    if LineMethod(line, word) {
      var m, rest := line[..|word|], line[|word| + 1..];
      assert line == m + [SP] + rest;
    }
    if m, rest :| line == m + [SP] + rest && EqIgnoreCase(m, word) {
      assert line[..|m|] == m && line[|m|] == SP;
    }
  }
}
