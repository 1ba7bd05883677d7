/** The response half of the HTTP/1 rewriting proxy: response heads, how their bodies are framed, and
    which final response of an upstream stream answers which request. */
module HttpResponse {
  import opened Wrappers
  import opened Bytes
  import opened Text
  import opened HttpHead
  import opened HttpStream

  const U16_MAX: nat := 0xFFFF

  // ---- Heads ----

  function NonEmpty(pieces: seq<Bytes>): seq<Bytes> {
    if pieces == [] then []
    else (if pieces[0] == [] then [] else [pieces[0]]) + NonEmpty(pieces[1..])
  }

  /** The second word of the status line, as a 16-bit number. */
  function ParseStatus(head: Bytes): Option<nat> {
    var r := FindCrlf(head, 0);
    if r == |head| then None
    else
      var words := NonEmpty(Split(head[..r], SP));
      if |words| < 2 then None
      else
        var code := ParseU64(words[1], 10);
        if code.Some? && code.value <= U16_MAX then code else None
  }

  /** The trimmed value of the first field with this name. */
  function FirstValue(fields: seq<Bytes>, name: Bytes): Option<Bytes> {
    if fields == [] then None
    else if Names(fields[0], name) then Some(FieldValue(fields[0]))
    else FirstValue(fields[1..], name)
  }

  predicate SaysChunked(fields: seq<Bytes>) {
    var v := FirstValue(fields, TRANSFER_ENCODING);
    v.Some? && HasToken(Split(v.value, COMMA), CHUNKED)
  }

  function SaidLength(fields: seq<Bytes>): Option<nat> {
    var v := FirstValue(fields, CONTENT_LENGTH);
    if v.None? then None else ParseU64(v.value, 10)
  }

  /** `ToTheEnd` is a body without framing: it runs to the end of the upstream stream. */
  datatype ResponseBody = Framed(framing: Framing) | ToTheEnd

  predicate HasBody(status: nat, headOnly: bool) {
    !headOnly && status >= 200 && status != 204 && status != 304
  }

  function ResponseBodyOf(fields: seq<Bytes>, status: nat, headOnly: bool): ResponseBody {
    if !HasBody(status, headOnly) then Framed(NoBody)
    else if SaysChunked(fields) then Framed(Chunked)
    else
      match SaidLength(fields)
      case Some(n) => Framed(if n == 0 then NoBody else Length(n))
      case None => ToTheEnd
  }

  predicate Interim(status: nat) { 100 <= status < 200 && status != 101 }

  /** The upstream's answer opens the tunnel this request asked for. */
  predicate Opens(meta: Meta, status: nat) {
    (meta.upgrade && status == 101) || (meta.connect && 200 <= status < 300)
  }

  /** What an upstream stream starts with: nothing, no readable head, an interim head that only passes
      through, or the head of a final response. */
  datatype Front = Closes | Unreadable | Passing(len: nat) | Answer(len: nat, status: nat)

  function FrontOf(u: Bytes): (f: Front)
    ensures f.Passing? || f.Answer? ==> 0 < f.len <= |u|
  {
    var e := FindBlank(u, 0);
    if u == [] then Closes
    else if e == |u| then Unreadable
    else
      var status := ParseStatus(u[..e + 4]);
      if status.None? then Unreadable
      else if Interim(status.value) then Passing(e + 4)
      else Answer(e + 4, status.value)
  }

  /** What follows a final head: the pump refuses it and stops; or everything after it is relayed raw;
      or `n` bytes of a body, and then the next response unless the body broke off. */
  datatype Following = Refused | Raw | Carried(n: nat, broken: bool)

  function FollowingOf(u: Bytes, len: nat, meta: Meta, status: nat): (f: Following)
    requires len <= |u|
    ensures f.Carried? ==> f.n <= |u| - len
  {
    if Opens(meta, status) then Raw
    else if status == 101 && !meta.TunnelCandidate() then Refused
    else
      match ResponseBodyOf(ParseHead(u[..len]).fields, status, meta.headOnly)
      case ToTheEnd => Raw
      case Framed(framing) =>
        match CopyOf(u[len..], framing)
        case Whole(n) => Carried(n, false)
        case Broken(w, _) => Carried(w, true)
  }

  // ---- Which response answers which request ----

  /** The statuses of the final responses of the stream `u`, the i-th answering the i-th of `metas`,
      as far as there are responses to read and requests to answer. */
  function Answers(u: Bytes, metas: seq<Meta>): (r: seq<nat>)
    ensures |r| <= |metas|
    decreases |u|
  {
    match FrontOf(u)
    case Passing(len) => Answers(u[len..], metas)
    case Answer(len, status) =>
      if metas == [] then []
      else
        var f := FollowingOf(u, len, metas[0], status);
        [status] + (if f.Carried? && !f.broken then Answers(u[len + f.n..], metas[1..]) else [])
    case _ => []
  }

  /** More requests never change an answer. */
  lemma {:induction false} AnswersExtend(u: Bytes, metas: seq<Meta>, more: seq<Meta>)
    ensures Answers(u, metas) <= Answers(u, metas + more)
    decreases |u|
  {
    hide FrontOf, FollowingOf;
    var front := FrontOf(u);
    if front.Passing? {
      AnswersExtend(u[front.len..], metas, more);
    } else if front.Answer? && metas != [] {
      assert (metas + more)[0] == metas[0] && (metas + more)[1..] == metas[1..] + more;
      var f := FollowingOf(u, front.len, metas[0], front.status);
      if f.Carried? && !f.broken { AnswersExtend(u[front.len + f.n..], metas[1..], more); }
    }
  }
}
