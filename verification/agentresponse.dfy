/**
  How the server turns the agent's already-decoded reply text into a
  reconciliation response: locate the first balanced JSON object of the
  trimmed reply by counting braces, cut the text at those positions out of
  the reply as received, hand it to a JSON parser, and keep the parsed results only
  when they carry `reconciliationResults` or `analysis`. Any failure yields
  the empty response with a zeroed summary; there is no fallback matcher.
 */
module AgentResponse {
  import opened Wrappers
  import opened Text
  import opened Values
  import opened Summaries

  /** The brace count change of one character. */
  function Delta(c: char): int {
    if c == '{' then 1 else if c == '}' then -1 else 0
  }

  /** Number of `{` minus number of `}` in `u`. */
  function Balance(u: string): int {
    if |u| == 0 then 0
    else
      var c := u[|u| - 1];
      Balance(u[..|u| - 1]) + Delta(c)
  }

  /**
    `k` is a place where the scan may stop: the character before it is a `}`
    that brings the brace count back to zero after some `{` has been seen.
   */
  predicate Closes(t: string, k: nat) {
    0 < k <= |t| && t[k - 1] == '}' && '{' in t[..k] && Balance(t[..k]) == 0
  }

  /**
    The brace-counting loop over `t` from index `i`, with the running count
    `depth` and the index of the first `{` (if one was seen). The count may go
    negative on a stray `}`.
   */
  function Scan(t: string, i: nat, depth: int, start: Option<nat>): Option<(nat, nat)>
    requires i <= |t|
    decreases |t| - i
  {
    if i == |t| then None
    else if t[i] == '{' then Scan(t, i + 1, depth + 1, if start.None? then Some(i) else start)
    else if t[i] == '}' then
      if depth - 1 == 0 && start.Some? then Some((start.value, i + 1))
      else Scan(t, i + 1, depth - 1, start)
    else Scan(t, i + 1, depth, start)
  }

  /** The start and end (exclusive) of the first complete JSON object in `t`, if any. */
  function Span(t: string): Option<(nat, nat)> {
    Scan(t, 0, 0, None)
  }

  lemma BalanceSnoc(t: string, i: nat)
    requires i < |t|
    ensures Balance(t[..i + 1]) == Balance(t[..i]) + Delta(t[i])
  {
    assert t[..i + 1][..i] == t[..i];
  }

  /** The loop's invariant at index `i`. */
  predicate ScanInvariant(t: string, i: nat, depth: int, start: Option<nat>) {
    i <= |t| && depth == Balance(t[..i]) &&
    (start.None? <==> '{' !in t[..i]) &&
    (start.Some? ==> start.value < i && t[start.value] == '{' && '{' !in t[..start.value]) &&
    forall k :: 0 < k <= i ==> !Closes(t, k)
  }

  /** One step of the loop keeps the invariant when it does not stop. */
  lemma ScanStep(t: string, i: nat, depth: int, start: Option<nat>)
    requires ScanInvariant(t, i, depth, start) && i < |t|
    requires !(t[i] == '}' && depth - 1 == 0 && start.Some?)
    ensures ScanInvariant(t, i + 1, depth + Delta(t[i]), if t[i] == '{' && start.None? then Some(i) else start)
  {
    BalanceSnoc(t, i);
    assert t[..i + 1] == t[..i] + [t[i]];
    var start' := if t[i] == '{' && start.None? then Some(i) else start;
    if start'.Some? {
      assert t[..i + 1][..start'.value] == t[..start'.value];
    }
    assert !Closes(t, i + 1);
  }

  /** When the loop stops at `i`, index `i + 1` closes the first object. */
  lemma ScanStop(t: string, i: nat, depth: int, start: Option<nat>)
    requires ScanInvariant(t, i, depth, start) && i < |t|
    requires t[i] == '}' && depth - 1 == 0 && start.Some?
    ensures Closes(t, i + 1)
  {
    BalanceSnoc(t, i);
    assert t[..i + 1] == t[..i] + [t[i]];
  }

  lemma {:induction false} ScanSpec(t: string, i: nat, depth: int, start: Option<nat>)
    requires ScanInvariant(t, i, depth, start)
    ensures Scan(t, i, depth, start).Some? ==>
      var (s, e) := Scan(t, i, depth, start).value;
      Closes(t, e) && s < e && t[s] == '{' && '{' !in t[..s] &&
      forall k :: 0 < k < e ==> !Closes(t, k)
    ensures Scan(t, i, depth, start).None? ==> forall k :: 0 < k <= |t| ==> !Closes(t, k)
    decreases |t| - i
  {
    if i < |t| {
      if t[i] == '}' && depth - 1 == 0 && start.Some? {
        ScanStop(t, i, depth, start);
      } else {
        ScanStep(t, i, depth, start);
        ScanSpec(t, i + 1, depth + Delta(t[i]), if t[i] == '{' && start.None? then Some(i) else start);
      }
    }
  }

  /**
    The span, when there is one, runs from the first `{` to the first `}` that
    returns the brace count to zero; there is none exactly when no `}` ever
    does so after a `{`.
   */
  lemma SpanSpec(t: string)
    ensures Span(t).Some? ==>
      var (s, e) := Span(t).value;
      s < e <= |t| && t[s] == '{' && '{' !in t[..s] && t[e - 1] == '}' && Balance(t[..e]) == 0 &&
      forall k :: 0 < k < e ==> !Closes(t, k)
    ensures Span(t).None? <==> forall k :: 0 < k <= |t| ==> !Closes(t, k)
  {
    assert t[..0] == [];
    ScanSpec(t, 0, 0, None);
  }

  /** `text.substring(s, e)` for `s <= e`: both ends are clamped to the text. */
  function Substring(text: string, s: nat, e: nat): string {
    var e' := if e <= |text| then e else |text|;
    var s' := if s <= e' then s else e';
    text[s'..e']
  }

  /**
    The text the response transformer hands to the JSON parser, as written:
    the span is found in the trimmed reply but cut out of the reply as
    received, so leading whitespace shifts the cut to the left. Without a
    span the whole trimmed reply is parsed.
   */
  function JsonTextAsWritten(text: string): string {
    var t := Trim(text);
    match Span(t)
    case Some((s, e)) => Substring(text, s, e)
    case None => t
  }

  /**
    The text the parser is evidently meant to see: the span cut out of the
    trimmed reply it was found in, or the whole trimmed reply without one.
   */
  function JsonText(text: string): string {
    var t := Trim(text);
    match Span(t)
    case Some((s, e)) => Substring(t, s, e)
    case None => t
  }

  /**
    The parser sees the first balanced object of the trimmed reply, from its
    first `{` to the first `}` that closes it, and the whole trimmed reply
    when no `}` closes an object.
   */
  lemma JsonTextSpec(text: string)
    ensures Span(Trim(text)).Some? ==>
      var (s, e) := Span(Trim(text)).value;
      s < e <= |Trim(text)| && JsonText(text) == Trim(text)[s..e] &&
      JsonText(text)[0] == '{' && JsonText(text)[e - s - 1] == '}' && Closes(Trim(text), e) &&
      '{' !in Trim(text)[..s] && forall k :: 0 < k < e ==> !Closes(Trim(text), k)
    ensures Span(Trim(text)).None? <==> JsonText(text) == Trim(text) && forall k :: 0 < k <= |Trim(text)| ==> !Closes(Trim(text), k)
  {
    var t := Trim(text);
    SpanSpec(t);
  }

  /** As written, with no brace that closes, the parser sees the whole trimmed reply. */
  lemma JsonTextWhole(text: string)
    requires forall k :: 0 < k <= |Trim(text)| ==> !Closes(Trim(text), k)
    ensures JsonTextAsWritten(text) == Trim(text) == JsonText(text)
  {
    SpanSpec(Trim(text));
  }

  /** As written, a reply that starts with no whitespace is cut exactly as intended. */
  lemma JsonTextAgrees(text: string)
    requires |text| == 0 || !IsSpace(text[0])
    ensures JsonTextAsWritten(text) == JsonText(text)
  {
    var t := Trim(text);
    TrimSpec(text);
    SpanSpec(t);
    if Span(t).Some? {
      var (s, e) := Span(t).value;
      assert s < e <= |t| && t == text[..|t|];
      forall k | s <= k < e
        ensures text[k] == t[k]
      {
      }
      assert text[s..e] == t[s..e];
    }
  }

  /**
    As written, one leading space cuts the object one character short:
    `" {}"` yields `" {"`, which no JSON parser accepts, where `"{}"` was meant.
   */
  lemma JsonTextShifted()
    ensures JsonTextAsWritten(" {}") == " {"
    ensures JsonText(" {}") == "{}"
  {
    var text := " {}";
    assert TrimStart(text) == TrimStart(text[1..]);
    assert text[1..] == "{}";
    assert Trim(text) == "{}";
    var t := "{}";
    assert Span(t) == Scan(t, 1, 1, Some(0));
    assert Span(t) == Some((0, 2));
    assert t[0..2] == t;
  }

  /**
    What the JSON parser gives back, reduced to the fields the server reads:
    `reconciliationResults` (None when it is absent or falsy), whether
    `analysis` is truthy, and `summary` (None when absent or falsy).
   */
  datatype Parsed = Parsed(results: Option<seq<Record>>, analysis: bool, summary: Option<Summary>)

  datatype Response = Response(results: seq<Record>, summary: Summary)

  /** The response returned on every failure path. */
  const Empty := Response([], Zero)

  /**
    The result selection of the response transformer, given the text `json`
    that is handed to the parser. `parse` stands for `JSON.parse`; None is a
    parse error or a value whose fields cannot be read.
   */
  function Select(text: string, json: string, parse: string -> Option<Parsed>): Response {
    if |Trim(text)| == 0 then Empty
    else
      match parse(json)
      case None => Empty
      case Some(p) =>
        if p.results.Some? || p.analysis then Response(p.results.GetOr([]), p.summary.GetOr(Zero))
        else Empty
  }

  /** The response transformer as written: it parses the as-written cut. */
  function Transform(text: string, parse: string -> Option<Parsed>): Response {
    Select(text, JsonTextAsWritten(text), parse)
  }

  /** The response transformer as evidently intended: it parses the object found in the trimmed reply. */
  function TransformIntended(text: string, parse: string -> Option<Parsed>): Response {
    Select(text, JsonText(text), parse)
  }

  /** The trimmed reply sits `lead` characters into the reply, `lead` being its leading whitespace. */
  lemma TrimOffset(text: string)
    ensures var lead := |text| - |TrimStart(text)|;
      0 <= lead && |Trim(text)| + lead <= |text| &&
      (|text| > 0 && IsSpace(text[0]) ==> lead > 0) &&
      forall k :: 0 <= k < |Trim(text)| ==> Trim(text)[k] == text[k + lead]
  {
    var r := TrimStart(text);
    TrimStartSpec(text);
    TrimEndSpec(r);
    if |text| > 0 && IsSpace(text[0]) {
      assert r == TrimStart(text[1..]);
      TrimStartSpec(text[1..]);
    }
  }

  /** The span's bounds, without the rest of its characterisation. */
  lemma SpanBounds(t: string, s: nat, e: nat)
    requires Span(t) == Some((s, e))
    ensures s < e <= |t| && t[e - 1] == '}'
  {
    SpanSpec(t);
  }

  /**
    As written, a reply that starts with whitespace is cut at the span's
    positions in the reply as received, which lie `lead` characters before the
    object: the text handed over stops short of the object's closing `}`.
   */
  lemma JsonTextShiftedBy(text: string, s: nat, e: nat)
    requires |text| > 0 && IsSpace(text[0])
    requires Span(Trim(text)) == Some((s, e))
    ensures var lead := |text| - |TrimStart(text)|;
      0 < lead && s < e && e + lead <= |text| &&
      JsonTextAsWritten(text) == text[s..e] &&
      JsonText(text) == text[s + lead..e + lead] &&
      text[e + lead - 1] == '}' && e <= e + lead - 1
  {
    var t := Trim(text);
    var lead := |text| - |TrimStart(text)|;
    TrimOffset(text);
    SpanBounds(t, s, e);
    assert JsonTextAsWritten(text) == Substring(text, s, e);
    assert JsonText(text) == Substring(t, s, e);
    assert t[e - 1] == text[e - 1 + lead];
    SliceShift(t, text, lead, s, e);
  }

  /** A slice of `t` is the same slice of `u`, `lead` places on, when `t` sits at `lead` in `u`. */
  lemma SliceShift(t: string, u: string, lead: nat, s: nat, e: nat)
    requires s <= e <= |t| && |t| + lead <= |u|
    requires forall k :: 0 <= k < |t| ==> t[k] == u[k + lead]
    ensures t[s..e] == u[s + lead..e + lead]
  {
  }

  /**
    The transformer as written: a non-empty response is exactly the parsed
    results of the as-written cut; blank replies, parse failures and replies
    with neither field give the empty response.
   */
  lemma TransformSpec(text: string, parse: string -> Option<Parsed>)
    ensures AllSpace(text) ==> Transform(text, parse) == Empty
    ensures parse(JsonTextAsWritten(text)).None? ==> Transform(text, parse) == Empty
    ensures Transform(text, parse) != Empty ==>
      !AllSpace(text) && parse(JsonTextAsWritten(text)).Some? &&
      var p := parse(JsonTextAsWritten(text)).value;
      (p.results.Some? || p.analysis) &&
      Transform(text, parse).results == p.results.GetOr([]) &&
      Transform(text, parse).summary == p.summary.GetOr(Zero)
    ensures !AllSpace(text) && parse(JsonTextAsWritten(text)).Some? && parse(JsonTextAsWritten(text)).value.results.Some? ==>
      Transform(text, parse).results == parse(JsonTextAsWritten(text)).value.results.value
  {
    TrimSpec(text);
  }

  /**
    The intended transformer parses the first balanced object of the trimmed
    reply, and agrees with the one as written on every reply that does not
    start with whitespace.
   */
  lemma TransformIntendedSpec(text: string, parse: string -> Option<Parsed>)
    ensures TransformIntended(text, parse) != Empty ==>
      !AllSpace(text) && parse(JsonText(text)).Some? &&
      var p := parse(JsonText(text)).value;
      (p.results.Some? || p.analysis) && TransformIntended(text, parse).results == p.results.GetOr([])
    ensures (|text| == 0 || !IsSpace(text[0])) ==> TransformIntended(text, parse) == Transform(text, parse)
  {
    TrimSpec(text);
    if |text| == 0 || !IsSpace(text[0]) {
      JsonTextAgrees(text);
    }
  }

  /**
    `performReconciliation`: unless the agent is configured and its invocation
    produced reply text, the empty response; otherwise the transformed reply.
   */
  function PerformReconciliation(configured: bool, reply: Option<string>, parse: string -> Option<Parsed>): Response {
    if !configured || reply.None? then Empty
    else Transform(reply.value, parse)
  }

  /**
    Any reconciliation result on the server's side was produced by the agent
    and parsed from the as-written cut of its reply.
   */
  lemma PerformReconciliationSpec(configured: bool, reply: Option<string>, parse: string -> Option<Parsed>)
    ensures !configured || reply.None? ==> PerformReconciliation(configured, reply, parse) == Empty
    ensures |PerformReconciliation(configured, reply, parse).results| > 0 ==>
      configured && reply.Some? && parse(JsonTextAsWritten(reply.value)).Some? &&
      parse(JsonTextAsWritten(reply.value)).value.results == Some(PerformReconciliation(configured, reply, parse).results)
  {
    if configured && reply.Some? {
      TransformSpec(reply.value, parse);
    }
  }
}
