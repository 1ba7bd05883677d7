/** What rewriting a head means: heads parse back from their bytes, and the rewritten bytes are
    those of the same head with the owned fields replaced. */
module HttpHeadLaws {
  import opened Basics
  import opened Wrappers
  import opened Bytes
  import opened HttpHead

  /** The client's fields that survive, in order. */
  function Kept(fields: seq<Bytes>, rewrites: seq<HeaderRewrite>): seq<Bytes> {
    if fields == [] then []
    else if Owned(Name(fields[0]), rewrites) then Kept(fields[1..], rewrites)
    else [fields[0]] + Kept(fields[1..], rewrites)
  }

  function Rewritten(h: Head, rewrites: seq<HeaderRewrite>): Head {
    Head(h.line, Insertions(rewrites) + Kept(h.fields, rewrites))
  }

  /** The refusal of the first refused line. */
  function FirstError(fields: seq<Bytes>): Option<HttpError>
    requires AllWellFormed(fields)
  {
    if fields == [] then None
    else if LineError(fields[0]).Some? then LineError(fields[0])
    else FirstError(fields[1..])
  }

  // ---- Parsing a block ----

  /** Inside a block, a line start before the final CRLF starts a line that also ends before it. */
  lemma LineInBlock(s: Bytes, i: nat)
    requires IsBlock(s) && 2 <= i <= |s| - 2 && CrlfAt(s, i - 2)
    ensures i <= FindCrlf(s, i) <= |s| - 2
    ensures FindCrlf(s, i) == i <==> i == |s| - 2
    ensures i < |s| - 2 ==> FindCrlf(s, i) <= |s| - 4
  {
    assert BlankAt(s, |s| - 4);
    assert CrlfAt(s, |s| - 4) && CrlfAt(s, |s| - 2);
    assert CrlfAt(s, i) ==> BlankAt(s, i - 2);
    assert i != |s| - 3;
  }

  lemma PrintCons(line: Bytes, rest: seq<Bytes>)
    ensures PrintFields([line] + rest) == line + CRLF + PrintFields(rest)
  {
    assert ([line] + rest)[1..] == rest;
  }

  lemma LineOff(s: Bytes, i: nat, r: nat)
    requires i <= r && CrlfAt(s, r)
    ensures s[i..] == s[i..r] + CRLF + s[r + 2..]
  {
  }

  lemma WellFormedCons(line: Bytes, rest: seq<Bytes>)
    requires WellFormedField(line) && AllWellFormed(rest)
    ensures AllWellFormed([line] + rest)
  {
    hide WellFormedField;
  }

  /** From any line start, a block's field lines are well formed and are all of its bytes. */
  lemma {:induction false} FieldsOfBlock(s: Bytes, i: nat)
    requires IsBlock(s) && 2 <= i <= |s| - 2 && CrlfAt(s, i - 2)
    ensures AllWellFormed(ParseFields(s, i))
    ensures PrintFields(ParseFields(s, i)) == s[i..]
    decreases |s| - i
  {
    LineInBlock(s, i);
    hide IsBlock, AllWellFormed, NoCrlf, PrintFields;
    var r := FindCrlf(s, i);
    if r == i {
      BlankEnds(s, i);
    } else {
      FieldsOfBlock(s, r + 2);
      SliceNoCrlf(s, i, r);
      var line, rest := s[i..r], ParseFields(s, r + 2);
      assert ParseFields(s, i) == [line] + rest;
      PrintCons(line, rest);
      LineOff(s, i, r);
      WellFormedCons(line, rest);
    }
  }

  lemma BlankEnds(s: Bytes, i: nat)
    requires i + 2 == |s| && CrlfAt(s, i)
    ensures ParseFields(s, i) == [] && PrintFields([]) == s[i..] && AllWellFormed([])
  {
  }

  lemma SliceNoCrlf(s: Bytes, i: nat, r: nat)
    requires i <= r <= |s| && forall j :: i <= j < r ==> !CrlfAt(s, j)
    ensures NoCrlf(s[i..r])
  {
    forall j | 0 <= j < r - i ensures !CrlfAt(s[i..r], j) {
      assert !CrlfAt(s, i + j);
    }
  }

  /** Printing a parsed block gives the block back. */
  lemma ParsePrint(s: Bytes)
    requires IsBlock(s)
    ensures WellFormed(ParseHead(s))
    ensures PrintHead(ParseHead(s)) == s
  {
    var r := FindCrlf(s, 0);
    assert BlankAt(s, |s| - 4) && CrlfAt(s, |s| - 4);
    FieldsOfBlock(s, r + 2);
    SliceNoCrlf(s, 0, r);
    hide ParseFields, PrintFields, AllWellFormed, NoCrlf, IsBlock;
    LineOff(s, 0, r);
    assert s[0..] == s && s[0..r] == s[..r];
  }

  // ---- Parsing what was printed ----

  lemma {:induction false} ParsePrintedFields(pre: Bytes, fields: seq<Bytes>)
    requires AllWellFormed(fields)
    ensures ParseFields(pre + PrintFields(fields), |pre|) == fields
    decreases |fields|
  {
    var s := pre + PrintFields(fields);
    if fields == [] {
      assert CrlfAt(s, |pre|);
    } else {
      var f, rest := fields[0], fields[1..];
      assert s == pre + f + CRLF + PrintFields(rest);
      FindCrlfAfter(pre, f, PrintFields(rest));
      assert s == (pre + f + CRLF) + PrintFields(rest);
      ParsePrintedFields(pre + f + CRLF, rest);
      assert s[|pre|..|pre| + |f|] == f;
    }
  }

  /** A printed head's only blank line is its last, whatever follows it. */
  lemma {:induction false} BlankAfterFields(pre: Bytes, fields: seq<Bytes>, post: Bytes)
    requires |pre| >= 2 && CrlfAt(pre, |pre| - 2)
    requires AllWellFormed(fields)
    ensures var s := pre + PrintFields(fields) + post;
      FindBlank(s, |pre| - 2) == |pre| + |PrintFields(fields)| - 4
    decreases |fields|
  {
    var s := pre + PrintFields(fields) + post;
    assert s[|pre| - 2] == CR && s[|pre| - 1] == LF;
    if fields == [] {
      assert BlankAt(s, |pre| - 2);
    } else {
      var f, rest := fields[0], fields[1..];
      assert s == pre + f + CRLF + (PrintFields(rest) + post);
      FindCrlfAfter(pre, f, PrintFields(rest) + post);
      var pre' := pre + f + CRLF;
      assert s == pre' + PrintFields(rest) + post;
      BlankAfterFields(pre', rest, post);
      FindBlankSkip(s, |pre| - 2, |pre'| - 2);
    }
  }

  lemma {:induction false} FindBlankSkip(s: Bytes, from: nat, to: nat)
    requires from <= to <= |s|
    requires forall j :: from <= j < to ==> !BlankAt(s, j)
    ensures FindBlank(s, from) == FindBlank(s, to)
    decreases |s| - from
  {
    if from < to { FindBlankSkip(s, from + 1, to); }
  }

  /** A printed head is a block on its own and is found whole at the front of a stream. */
  lemma PrintedBlock(h: Head, post: Bytes)
    requires WellFormed(h)
    ensures FindBlank(PrintHead(h) + post, 0) + 4 == |PrintHead(h)|
    ensures IsBlock(PrintHead(h)) && ParseHead(PrintHead(h)) == h
  {
    hide AllWellFormed, ParseFields, PrintFields;
    BlankInPrinted(h, post);
    BlankInPrinted(h, []);
    assert PrintHead(h) + [] == PrintHead(h);
    FindCrlfAfter([], h.line, PrintFields(h.fields));
    assert [] + h.line + CRLF + PrintFields(h.fields) == PrintHead(h);
    ParsePrintedFields(h.line + CRLF, h.fields);
    assert PrintHead(h)[..|h.line|] == h.line;
  }

  lemma BlankInPrinted(h: Head, post: Bytes)
    requires WellFormed(h)
    ensures |PrintHead(h)| >= 4
    ensures FindBlank(PrintHead(h) + post, 0) + 4 == |PrintHead(h)|
  {
    hide AllWellFormed;
    var s := PrintHead(h) + post;
    BlankAfterFields(h.line + CRLF, h.fields, post);
    assert s == [] + h.line + CRLF + (PrintFields(h.fields) + post);
    FindCrlfAfter([], h.line, PrintFields(h.fields) + post);
    FindBlankSkip(s, 0, |h.line|);
  }

  // ---- Rewriting ----

  lemma {:induction false} InsertMeaning(out: Bytes, rewrites: seq<HeaderRewrite>, fields: seq<Bytes>)
    ensures Insert(out, rewrites) + PrintFields(fields)
         == out + PrintFields(Insertions(rewrites) + fields)
    decreases |rewrites|
  {
    if rewrites == [] {
      assert Insertions(rewrites) + fields == fields;
    } else {
      var r, rest := rewrites[0], rewrites[1..];
      if r.value.Some? {
        var line := r.name + [COLON, SP] + r.value.value;
        var next := out + r.name + [COLON, SP] + r.value.value + CRLF;
        InsertMeaning(next, rest, fields);
        assert next == out + (line + CRLF);
        var more := Insertions(rest) + fields;
        InsertionsCons(rewrites, fields);
        PrintCons(line, more);
        hide PrintFields, Insertions;
        Assoc(out, line + CRLF, PrintFields(more));
      } else {
        assert Insertions(rewrites) == Insertions(rest);
        InsertMeaning(out, rest, fields);
      }
    }
  }

  lemma InsertionsCons(rewrites: seq<HeaderRewrite>, fields: seq<Bytes>)
    requires rewrites != [] && rewrites[0].value.Some?
    ensures Insertions(rewrites) + fields
         == [rewrites[0].name + [COLON, SP] + rewrites[0].value.value] + (Insertions(rewrites[1..]) + fields)
  {
  }

  lemma {:induction false} RewriteFieldsMeaning(s: Bytes, i: nat, rewrites: seq<HeaderRewrite>, out: Bytes)
    requires IsBlock(s) && 2 <= i <= |s| - 2 && CrlfAt(s, i - 2)
    requires AllWellFormed(ParseFields(s, i))
    ensures RewriteFields(s, i, rewrites, out)
         == match FirstError(ParseFields(s, i))
            case Some(e) => Err(e)
            case None => Ok(out + PrintFields(Kept(ParseFields(s, i), rewrites)))
    decreases |s| - i
  {
    LineInBlock(s, i);
    var r := FindCrlf(s, i);
    if r > i && LineError(s[i..r]).None? {
      var fields, line := ParseFields(s, i), s[i..r];
      assert fields[0] == line && fields[1..] == ParseFields(s, r + 2);
      assert s[i..r + 2] == line + CRLF;
      var next := if Owned(Name(line), rewrites) then out else out + s[i..r + 2];
      RewriteFieldsMeaning(s, r + 2, rewrites, next);
      KeepStep(fields, rewrites, out);
    }
  }

  lemma KeepStep(fields: seq<Bytes>, rewrites: seq<HeaderRewrite>, out: Bytes)
    requires fields != []
    ensures (if Owned(Name(fields[0]), rewrites) then out else out + (fields[0] + CRLF))
              + PrintFields(Kept(fields[1..], rewrites))
         == out + PrintFields(Kept(fields, rewrites))
  {
    if !Owned(Name(fields[0]), rewrites) {
      var line, rest := fields[0], Kept(fields[1..], rewrites);
      assert Kept(fields, rewrites) == [line] + rest;
      hide Owned, Name, Kept, PrintFields;
      PrintCons(line, rest);
      Assoc(out, line + CRLF, PrintFields(rest));
    }
  }

  /** `rewrite_request_head` on a complete block: the first refused line decides the error,
      otherwise the result is the block's head with its owned fields replaced. */
  lemma RewriteHeadMeaning(block: Bytes, rewrites: seq<HeaderRewrite>)
    requires IsBlock(block)
    ensures WellFormed(ParseHead(block))
    ensures RewriteHead(block, rewrites)
         == match FirstError(ParseHead(block).fields)
            case Some(e) => Err(e)
            case None => Ok(PrintHead(Rewritten(ParseHead(block), rewrites)))
  {
    ParsePrint(block);
    var r := FindCrlf(block, 0);
    assert BlankAt(block, |block| - 4) && CrlfAt(block, |block| - 4);
    var start := Insert(block[..r + 2], rewrites);
    RewriteFieldsMeaning(block, r + 2, rewrites, start);
    InsertMeaning(block[..r + 2], rewrites, Kept(ParseFields(block, r + 2), rewrites));
    assert block[..r + 2] == block[..r] + CRLF;
  }
}
