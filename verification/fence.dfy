/** Unwrapping of the language model's reply before it is parsed as JSON
    (`_analyze_messages` in offtopic/offtopic.py): the reply is stripped, and
    the text inside a "```json" fence, or else inside a bare "```" fence, is
    kept. */
module Fence {
  import opened Wrappers
  import opened Text

  const Backticks := "```"
  const JsonFence := "```json"

  /** The reply as it reaches `json.loads`. */
  function StripFence(reply: string): (r: string)
    ensures IsStripped(r)
  {
    var content := Strip(reply);
    if Contains(content, JsonFence) then Unwrap(content, JsonFence)
    else if Contains(content, Backticks) then Unwrap(content, Backticks)
    else content
  }

  /** `content.split(opener)[1].split("```")[0].strip()`. */
  function Unwrap(content: string, opener: string): (r: string)
    requires |opener| > 0 && Contains(content, opener)
    ensures IsStripped(r)
  {
    Strip(Split(Split(content, opener)[1], Backticks)[0])
  }

  /** The unwrapped text is the trimmed text after the first `opener`, up to the
      next `opener` or "```", whichever the two splits meet first. */
  lemma UnwrapSpec(content: string, opener: string)
    requires |opener| > 0 && Contains(content, opener)
    ensures Unwrap(content, opener) == Strip(Before(Before(After(content, opener), opener), Backticks))
  {
    SplitHeads(content, opener);
    SplitHeads(Split(content, opener)[1], Backticks);
  }

  /** With a "```json" tag, the result is the trimmed text between the first
      "```json" and the next "```" (or the end of the text). */
  lemma StripFenceJson(reply: string)
    requires Contains(Strip(reply), JsonFence)
    ensures StripFence(reply) == Strip(Before(Before(After(Strip(reply), JsonFence), JsonFence), Backticks))
  {
    UnwrapSpec(Strip(reply), JsonFence);
  }

  /** Without a "```json" tag but with a bare fence, the result is the trimmed
      text between the first and the second "```" (or the end of the text). */
  lemma StripFenceBare(reply: string)
    requires !Contains(Strip(reply), JsonFence) && Contains(Strip(reply), Backticks)
    ensures StripFence(reply) == Strip(Before(After(Strip(reply), Backticks), Backticks))
  {
    var content := Strip(reply);
    assert StripFence(reply) == Unwrap(content, Backticks);
    UnwrapSpec(content, Backticks);
    BeforeIdempotent(After(content, Backticks), Backticks);
  }

  /** Without any fence the reply is only stripped. */
  lemma StripFenceNone(reply: string)
    requires !Contains(Strip(reply), Backticks)
    ensures StripFence(reply) == Strip(reply)
  {
    var c := Strip(reply);
    JsonTagHasFence(c);
  }

  /** "```json" starts with "```", so a text holding the tag holds a fence. */
  lemma JsonTagHasFence(c: string)
    ensures Contains(c, JsonFence) ==> Contains(c, Backticks)
    ensures Contains(c, JsonFence) ==> IndexOf(c, Backticks).value <= IndexOf(c, JsonFence).value
  {
    IndexOfSpec(c, JsonFence);
    IndexOfSpec(c, Backticks);
    if Contains(c, JsonFence) {
      OccursPrefix(c, JsonFence, Backticks, IndexOf(c, JsonFence).value);
    }
  }

  lemma NoEarlyFence(s: string, k: int)
    requires !Contains(s, Backticks) && !EndsWith(s, "`")
    requires 0 <= k < |s|
    ensures !OccursAt(s + Backticks, Backticks, k)
  {
    var t := s + Backticks;
    IndexOfSpec(s, Backticks);
    if k + 3 <= |s| {
      assert !OccursAt(s, Backticks, k);
      assert t[k..k + 3] == s[k..k + 3];
    } else if k + 3 <= |t| {
      assert s[|s| - 1..] == [s[|s| - 1]];
      assert t[k..k + 3][|s| - 1 - k] == s[|s| - 1] != '`';
    }
  }

  /** In `s + "```"` the first "```" is the appended one, provided `s` holds no
      "```" and does not end in a backtick; and no "```json" occurs. */
  lemma ClosingFenceFirst(s: string)
    requires !Contains(s, Backticks) && !EndsWith(s, "`")
    ensures IndexOf(s + Backticks, Backticks) == Some(|s|)
    ensures !Contains(s + Backticks, JsonFence)
  {
    var t := s + Backticks;
    ClosingFenceIndex(s);
    JsonTagHasFence(t);
  }

  /** The first "```" of `s + "```"` is the appended one. */
  lemma ClosingFenceIndex(s: string)
    requires !Contains(s, Backticks) && !EndsWith(s, "`")
    ensures IndexOf(s + Backticks, Backticks) == Some(|s|)
  {
    var t := s + Backticks;
    forall k | 0 <= k < |s|
      ensures !OccursAt(t, Backticks, k)
    {
      NoEarlyFence(s, k);
    }
    AppendedOccurs(s, Backticks);
    IndexOfIs(t, Backticks, |s|);
  }

  /** Round trip with a "```json" tag: wrapping `s` in a json fence and
      unwrapping gives `s` stripped, whenever `s` holds no "```" and does not
      end in a backtick. */
  lemma JsonFenceRoundTrip(s: string)
    requires !Contains(s, Backticks) && !EndsWith(s, "`")
    ensures StripFence(JsonFence + s + Backticks) == Strip(s)
  {
    var t := s + Backticks;
    var c := JsonFence + t;
    assert c == JsonFence + s + Backticks;
    assert c[0] == '`' && c[|c| - 1] == '`';
    StripStripped(c);
    IndexOfAtStart(JsonFence, t);
    assert After(c, JsonFence) == t;
    ClosingFenceFirst(s);
    IndexOfSpec(t, JsonFence);
    assert Before(t, JsonFence) == t;
    assert Before(t, Backticks) == s;
    StripFenceJson(c);
  }

  /** `s` starts with what "```json" has after its first three, two or one
      backticks, so that "```" + s holds "```json". */
  predicate CompletesJsonTag(s: string) {
    StartsWith(s, "json") || StartsWith(s, "`json") || StartsWith(s, "``json")
  }

  /** Round trip with a bare fence: as above, provided also that the opening
      fence and the start of `s` do not together make "```json". */
  lemma BareFenceRoundTrip(s: string)
    requires !Contains(s, Backticks) && !EndsWith(s, "`")
    requires !CompletesJsonTag(s)
    ensures StripFence(Backticks + s + Backticks) == Strip(s)
  {
    var t := s + Backticks;
    var c := Backticks + t;
    assert c == Backticks + s + Backticks;
    assert c[0] == '`' && c[|c| - 1] == '`';
    StripStripped(c);
    NoJsonFenceInBare(s);
    IndexOfAtStart(Backticks, t);
    assert After(c, Backticks) == t;
    ClosingFenceFirst(s);
    assert Before(t, Backticks) == s;
    StripFenceBare(c);
  }

  /** The condition is the exact obstruction: when the start of `s` completes
      the tag, the bare-fenced text holds "```json" and is unwrapped as a json
      fence instead. */
  lemma CompletedTagIsJsonFence(s: string)
    requires CompletesJsonTag(s)
    ensures Contains(Backticks + s + Backticks, JsonFence)
  {
    var c := Backticks + s + Backticks;
    var k := if StartsWith(s, "json") then 0 else if StartsWith(s, "`json") then 1 else 2;
    assert c[k..k + 7] == Backticks[k..] + s[..k + 4];
    assert OccursAt(c, JsonFence, k);
    ContainsIff(c, JsonFence);
  }

  lemma NoJsonFenceInBare(s: string)
    requires !Contains(s, Backticks) && !EndsWith(s, "`")
    requires !CompletesJsonTag(s)
    ensures !Contains(Backticks + s + Backticks, JsonFence)
  {
    var c := Backticks + s + Backticks;
    IndexOfSpec(s, Backticks);
    forall k | 0 <= k && k + 7 <= |c|
      ensures !OccursAt(c, JsonFence, k)
    {
      NoJsonFenceAt(s, k);
    }
    IndexOfSpec(c, JsonFence);
  }

  lemma NoJsonFenceAt(s: string, k: int)
    requires !Contains(s, Backticks) && !EndsWith(s, "`")
    requires !CompletesJsonTag(s)
    requires 0 <= k && k + 7 <= |s| + 6
    ensures (Backticks + s + Backticks)[k..k + 7] != JsonFence
  {
    var c := Backticks + s + Backticks;
    var w := c[k..k + 7];
    if k <= 2 {
      if |s| < k + 4 {
        assert w[3 + |s| - k] == c[3 + |s|] == '`' != JsonFence[3 + |s| - k];
      } else {
        assert w[3 - k..] == s[..k + 4];
        if k == 0 {
          assert JsonFence[3..] == "json";
        } else if k == 1 {
          assert JsonFence[2..] == "`json";
        } else {
          assert JsonFence[1..] == "``json";
        }
      }
    } else {
      IndexOfSpec(s, Backticks);
      assert !OccursAt(s, Backticks, k - 3);
      assert w[..3] == s[k - 3..k] != Backticks;
    }
  }
}
