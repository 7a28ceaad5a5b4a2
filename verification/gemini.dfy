/**
  The text handling around the Gemini call in `reconcileWithGemini`: the
  rule pairs collected for the prompt, the removal of markdown fences from
  the reply, the extraction of the `[ ... ]` payload, and the error messages
  that leave the function. The call itself and `JSON.parse` are parameters.
 */
module Gemini {
  import opened Wrappers
  import opened Text
  import opened Seqs
  import opened Values
  import RuleMatcher

  type TermPair = RuleMatcher.TermPair

  /** Every error leaving `reconcileWithGemini` carries this prefix. */
  const Prefix := "Gemini reconciliation failed: "

  const Fence := "```"

  /** A stored matching rule as the function reads it: its `rules` list may be missing. */
  datatype GeminiRule = GeminiRule(rules: Option<seq<TermPair>>)

  function PairLists(rules: seq<GeminiRule>): seq<seq<TermPair>> {
    seq(|rules|, i requires 0 <= i < |rules| => rules[i].rules.GetOr([]))
  }

  /** `matchingRules.flatMap(rule => rule.rules || [])`. */
  function RulePairs(rules: seq<GeminiRule>): seq<TermPair> {
    Flatten(PairLists(rules))
  }

  /**
    The pairs are the rules' lists one after the other: a rule contributes its
    own list, a missing list contributes nothing, and a pair is collected
    exactly when some rule holds it.
   */
  lemma RulePairsSpec(a: seq<GeminiRule>, b: seq<GeminiRule>, r: GeminiRule)
    ensures RulePairs(a + b) == RulePairs(a) + RulePairs(b)
    ensures RulePairs([r]) == r.rules.GetOr([])
    ensures r.rules.None? ==> RulePairs([r]) == []
    ensures forall p :: p in RulePairs(a) <==>
      exists i :: 0 <= i < |a| && a[i].rules.Some? && p in a[i].rules.value
  {
    assert PairLists(a + b) == PairLists(a) + PairLists(b);
    FlattenAppend(PairLists(a), PairLists(b));
    assert PairLists([r]) == [r.rules.GetOr([])];
    assert Flatten([r.rules.GetOr([])]) == r.rules.GetOr([]) + Flatten([]);
    FlattenSpec(PairLists(a));
    forall p | p in RulePairs(a)
      ensures exists i :: 0 <= i < |a| && a[i].rules.Some? && p in a[i].rules.value
    {
      var i :| 0 <= i < |PairLists(a)| && p in PairLists(a)[i];
      assert a[i].rules.Some? && p in a[i].rules.value;
    }
    forall p, i | 0 <= i < |a| && a[i].rules.Some? && p in a[i].rules.value
      ensures p in RulePairs(a)
    {
      assert p in PairLists(a)[i];
    }
  }

  /** `s.replace(/```/g, "")`. */
  function StripFences(s: string): string {
    ReplaceAll(s, Fence, "")
  }

  lemma StripHead(t: string)
    requires |t| > 0 && t[0] != '`'
    ensures StripFences(t) == [t[0]] + StripFences(t[1..])
  {
    if |t| >= 3 {
      assert t[..3][0] == t[0];
    }
  }

  /** After a lone or doubled backtick that is kept, the rest cannot begin with two more. */
  lemma StripNoPair(s: string)
    requires |s| > 0 && s[0] == '`' && !StartsWith(s, Fence)
    ensures !StartsWith(StripFences(s[1..]), "``")
  {
    var u := s[1..];
    if |u| > 0 && u[0] != '`' {
      StripHead(u);
      if |StripFences(u)| >= 2 {
        assert StripFences(u)[..2][0] == u[0];
      }
    } else if |u| > 0 {
      if |u| > 1 {
        assert s[..3] == [s[0], u[0], u[1]];
      }
      if |u| >= 3 {
        assert u[..3][1] == u[1];
      }
      assert StripFences(u) == [u[0]] + StripFences(u[1..]);
      if |u| > 1 {
        StripHead(u[1..]);
        assert StripFences(u)[..2] == [u[0], u[1]];
      }
    }
  }

  /** No triple backtick survives the fence removal, however the backticks were arranged. */
  lemma {:induction false} StripNoFence(s: string)
    ensures !Contains(StripFences(s), Fence)
    decreases |s|
  {
    if |s| > 0 {
      if StartsWith(s, Fence) {
        StripNoFence(s[|Fence|..]);
        assert StripFences(s) == "" + StripFences(s[|Fence|..]) == StripFences(s[|Fence|..]);
      } else {
        StripNoFence(s[1..]);
        var o := StripFences(s);
        assert o == [s[0]] + StripFences(s[1..]);
        assert o[1..] == StripFences(s[1..]);
        if s[0] == '`' {
          StripNoPair(s);
          if |o| >= 3 {
            assert o[1..][..2] == o[..3][1..];
          }
        } else {
          if |o| >= 3 {
            assert o[..3][0] == o[0];
          }
        }
      }
    }
  }

  /** A needle whose first character does not occur is not contained. */
  lemma NotContained(s: string, needle: string)
    requires |needle| > 0 && needle[0] !in s
    ensures !Contains(s, needle)
  {
    if Contains(s, needle) {
      var i := ContainsWitness(s, needle);
    }
  }

  /** A slice of a text holds only what the text holds. */
  lemma ContainsSlice(s: string, i: nat, j: nat, needle: string)
    requires i <= j <= |s| && Contains(s[i..j], needle)
    ensures Contains(s, needle)
  {
    var k := ContainsWitness(s[i..j], needle);
    assert i + k + |needle| <= j;
    forall m | 0 <= m < |needle|
      ensures s[i + k + m] == needle[m]
    {
      assert s[i..j][k..k + |needle|][m] == s[i..j][k + m] == s[i + k + m];
    }
    assert s[i + k..i + k + |needle|] == needle;
    ContainsAt(s, needle, i + k);
  }

  /** The cleaned reply: fences removed, then trimmed. */
  function Clean(text: string): string {
    Trim(StripFences(ReplaceAll(text, "```json", "")))
  }

  /**
    The cleaned reply holds no fence (so no "```json" either) and no edge
    whitespace, and a reply without backticks is only trimmed.
   */
  lemma CleanSpec(text: string)
    ensures !Contains(Clean(text), Fence)
    ensures |Clean(text)| > 0 ==> !IsSpace(Clean(text)[0]) && !IsSpace(Clean(text)[|Clean(text)| - 1])
    ensures '`' !in text ==> Clean(text) == Trim(text)
  {
    var u := StripFences(ReplaceAll(text, "```json", ""));
    StripNoFence(ReplaceAll(text, "```json", ""));
    TrimSpec(u);
    if Contains(Clean(text), Fence) {
      var i := TrimIsSlice(u);
      ContainsSlice(u, i, i + |Trim(u)|, Fence);
    }
    if '`' !in text {
      NotContained(text, "```json");
      NotContained(text, Fence);
    }
  }

  /**
    `clean.match(/\[([\s\S]*)\]/)`: from the first `[` to the last `]`, when
    that `]` comes after the `[`.
   */
  function ArraySpan(c: string): Option<(nat, nat)> {
    if '[' in c && ']' in c && IndexOf(c, '[') < LastIndexOf(c, ']') then
      Some((IndexOf(c, '['), LastIndexOf(c, ']') + 1))
    else None
  }

  /**
    There is a payload exactly when some `[` precedes some `]`; it starts with
    the first `[` and ends with the last `]`.
   */
  lemma ArraySpanSpec(c: string)
    ensures ArraySpan(c).None? <==>
      forall i, j :: 0 <= i < j < |c| && c[i] == '[' ==> c[j] != ']'
    ensures ArraySpan(c).Some? ==>
      var (s, e) := ArraySpan(c).value;
      s < e <= |c| && c[s] == '[' && c[e - 1] == ']' && '[' !in c[..s] && ']' !in c[e..]
  {
    if ArraySpan(c).None? {
      forall i, j | 0 <= i < j < |c| && c[i] == '['
        ensures c[j] != ']'
      {
        assert IndexOf(c, '[') <= i;
      }
    }
  }

  /** What `JSON.parse` makes of the payload, when it succeeds. */
  datatype GeminiParsed = ArrayOf(rows: seq<Record>) | NotArray

  /**
    `reconcileWithGemini` from the reply on: `apiKey` is the environment
    variable (empty when unset), `reply` the SDK's text or its error message,
    `parse` stands for `JSON.parse` (None when it throws). The message thrown
    inside the parsing block is caught and replaced, then the outer handler
    prefixes every message once more.
   */
  function ReconcileWithGemini(apiKey: string, reply: Result<string, string>, parse: string -> Option<GeminiParsed>): Result<seq<Record>, string> {
    if |apiKey| == 0 then Failure(Prefix + "GEMINI_API_KEY is not set in environment variables")
    else if reply.Failure? then Failure(Prefix + reply.error)
    else if |reply.value| == 0 then Failure(Prefix + "No response text from Gemini API")
    else
      var c := Clean(reply.value);
      match ArraySpan(c)
      case None => Failure(Prefix + Prefix + "Invalid JSON format")
      case Some((s, e)) =>
        match parse(c[s..e])
        case None => Failure(Prefix + Prefix + "Invalid JSON format")
        case Some(NotArray) => Failure(Prefix + "Gemini response is not an array")
        case Some(ArrayOf(rows)) => Success(rows)
  }

  /**
    Every failure message starts with the prefix; a missing key fails before
    the call; a reply with no `[ ... ]` payload fails as invalid JSON; a
    success is exactly the array parsed from that payload.
   */
  lemma ReconcileWithGeminiSpec(apiKey: string, reply: Result<string, string>, parse: string -> Option<GeminiParsed>)
    ensures ReconcileWithGemini(apiKey, reply, parse).Failure? ==>
      StartsWith(ReconcileWithGemini(apiKey, reply, parse).error, Prefix)
    ensures |apiKey| == 0 ==> ReconcileWithGemini(apiKey, reply, parse).Failure?
    ensures |apiKey| > 0 && reply.Success? && |reply.value| > 0 && ArraySpan(Clean(reply.value)).None? ==>
      ReconcileWithGemini(apiKey, reply, parse) == Failure(Prefix + Prefix + "Invalid JSON format")
    ensures ReconcileWithGemini(apiKey, reply, parse).Success? ==>
      |apiKey| > 0 && reply.Success? && |reply.value| > 0 && ArraySpan(Clean(reply.value)).Some? &&
      var (s, e) := ArraySpan(Clean(reply.value)).value;
      parse(Clean(reply.value)[s..e]) == Some(ArrayOf(ReconcileWithGemini(apiKey, reply, parse).value))
  {
    var r := ReconcileWithGemini(apiKey, reply, parse);
    if r.Failure? {
      assert (Prefix + (r.error[|Prefix|..]))[..|Prefix|] == Prefix;
      assert r.error == Prefix + r.error[|Prefix|..];
    }
  }
}
