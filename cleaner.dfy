/**
  The cleaning step of `process_with_gemini`: the model's reply is stripped,
  a leading code fence is cut off at fixed offsets (seven characters for the
  JSON-tagged fence, three for the bare one, and always the last three
  characters, whatever they are), and the rest is stripped again before it
  goes to the JSON parser.
 */
module ResponseCleaner {
  import opened PyText

  const JsonFence: string := "```json"
  const Fence: string := "```"

  /** The fence cut applied to the stripped reply `t`. */
  function Unfence(t: string): (u: string)
    ensures |u| <= |t|
  {
    if StartsWith(t, JsonFence) then Slice(t, 7, -3)
    else if StartsWith(t, Fence) then Slice(t, 3, -3)
    else t
  }

  /** The text handed to `json.loads` for the reply `reply`. */
  function Clean(reply: string): (cleaned: string)
    ensures IsTrimmed(cleaned)
    ensures |cleaned| <= |reply|
  {
    Strip(Unfence(Strip(reply)))
  }

  /** Cleaning never invents text: the result is one contiguous piece of the reply. */
  lemma CleanIsInfix(reply: string)
    ensures IsInfix(Clean(reply), reply)
  {
    var t := Strip(reply);
    var unfenced := Unfence(t);
    StripIsInfix(reply);
    if StartsWith(t, JsonFence) {
      SliceIsInfix(t, 7, -3);
    } else if StartsWith(t, Fence) {
      SliceIsInfix(t, 3, -3);
    } else {
      assert t[0..|t|] == t;
    }
    InfixTransitive(unfenced, t, reply);
    StripIsInfix(unfenced);
    InfixTransitive(Clean(reply), unfenced, reply);
  }

  /** Every reply that starts with the tagged fence also starts with the bare one. */
  lemma JsonFenceIsFence(t: string)
    ensures StartsWith(t, JsonFence) ==> StartsWith(t, Fence)
  {
    if StartsWith(t, JsonFence) {
      assert t[..3] == t[..7][..3];
    }
  }

  /** The "```json" test comes first: such a text loses its first seven and
      its last three characters, even when those three are not a closing
      fence, and at length ten or less nothing is left. */
  lemma UnfenceJson(t: string)
    requires StartsWith(t, JsonFence)
    ensures Unfence(t) == if |t| > 10 then t[7..|t| - 3] else []
  {
    SliceDropLast(t, 7, 3);
  }

  /** Only a text that starts with "```" but not with "```json" is cut at
      offset three; at length six or less nothing is left. */
  lemma UnfenceBare(t: string)
    requires StartsWith(t, Fence) && !StartsWith(t, JsonFence)
    ensures Unfence(t) == if |t| > 6 then t[3..|t| - 3] else []
  {
    SliceDropLast(t, 3, 3);
  }

  /** A text that starts with no fence is left alone. */
  lemma UnfencePlain(t: string)
    requires !StartsWith(t, Fence)
    ensures Unfence(t) == t
  {
    JsonFenceIsFence(t);
  }

  /** A reply whose stripped form starts with "```json" cleans to the strip of
      the characters from index 7 up to, but excluding, the last three. */
  lemma CleanJsonFenced(reply: string)
    ensures var t := Strip(reply);
      StartsWith(t, JsonFence) ==> Clean(reply) == if |t| > 10 then Strip(t[7..|t| - 3]) else []
  {
    if StartsWith(Strip(reply), JsonFence) {
      UnfenceJson(Strip(reply));
    }
  }

  /** A reply whose stripped form starts with "```" but not "```json" cleans
      to the strip of the characters from index 3 up to, but excluding, the
      last three. */
  lemma CleanBareFenced(reply: string)
    ensures var t := Strip(reply);
      StartsWith(t, Fence) && !StartsWith(t, JsonFence) ==>
        Clean(reply) == if |t| > 6 then Strip(t[3..|t| - 3]) else []
  {
    if StartsWith(Strip(reply), Fence) && !StartsWith(Strip(reply), JsonFence) {
      UnfenceBare(Strip(reply));
    }
  }

  /** A fenced text always loses at least the fence's first three characters. */
  lemma UnfenceShrinksFenced(t: string)
    requires StartsWith(t, Fence)
    ensures |Unfence(t)| < |t|
  {
    if StartsWith(t, JsonFence) {
      UnfenceJson(t);
    } else {
      UnfenceBare(t);
    }
  }

  /** Cleaning differs from a single strip exactly when the stripped reply
      starts with a fence; cleaning an unfenced reply gives the same as
      stripping it once, since a second strip changes nothing. */
  lemma CleanIsStripUnlessFenced(reply: string)
    ensures Clean(reply) == Strip(reply) <==> !StartsWith(Strip(reply), Fence)
  {
    var t := Strip(reply);
    if StartsWith(t, Fence) {
      UnfenceShrinksFenced(t);
      assert |Clean(reply)| < |t|;
    } else {
      UnfencePlain(t);
      StripIdempotent(reply);
    }
  }

  /** A reply that is already trimmed is cut straight away. */
  lemma CleanTrimmed(w: string)
    requires IsTrimmed(w)
    ensures Clean(w) == Strip(Unfence(w))
  {
    StripFixpoint(w);
  }

  lemma UnfenceJsonWrapped(body: string)
    ensures Unfence(JsonFence + body + Fence) == body
  {
    var w := JsonFence + body + Fence;
    assert w[..7] == JsonFence;
    UnfenceJson(w);
    assert w[7..|w| - 3] == body;
  }

  /** A body wrapped in a "```json" fence cleans to the body, stripped. */
  lemma CleanJsonWrapped(body: string)
    ensures Clean(JsonFence + body + Fence) == Strip(body)
  {
    var w := JsonFence + body + Fence;
    assert IsTrimmed(w);
    CleanTrimmed(w);
    UnfenceJsonWrapped(body);
  }

  /** A bare fence followed by a body that does not start with "json" does
      not pass the "```json" test. */
  lemma BareWrapIsNotJsonFenced(body: string)
    requires !StartsWith(body, "json")
    ensures !StartsWith(Fence + body + Fence, JsonFence)
  {
    var w := Fence + body + Fence;
    if |body| >= 4 {
      assert w[..7][3..7] == body[..4];
      assert JsonFence[3..7] == "json";
    } else if |w| >= 7 {
      assert w[3 + |body|] == '`' != JsonFence[3 + |body|];
    }
  }

  lemma UnfenceBareWrapped(body: string)
    requires !StartsWith(body, "json")
    ensures Unfence(Fence + body + Fence) == body
  {
    var w := Fence + body + Fence;
    assert w[..3] == Fence;
    BareWrapIsNotJsonFenced(body);
    UnfenceBare(w);
    assert w[3..|w| - 3] == body;
  }

  /** A body wrapped in a bare fence cleans to the body, stripped, unless the
      body itself starts with "json", in which case the tagged branch wins. */
  lemma CleanBareWrapped(body: string)
    requires !StartsWith(body, "json")
    ensures Clean(Fence + body + Fence) == Strip(body)
  {
    var w := Fence + body + Fence;
    assert IsTrimmed(w);
    CleanTrimmed(w);
    UnfenceBareWrapped(body);
  }

  lemma UnfenceUnclosed(body: string)
    requires |body| >= 3
    ensures Unfence(JsonFence + body) == body[..|body| - 3]
  {
    var w := JsonFence + body;
    assert w[..7] == JsonFence;
    UnfenceJson(w);
    assert w[7..|w| - 3] == body[..|body| - 3];
  }

  /** A "```json" reply with no closing fence loses the last three characters
      of its content. */
  lemma CleanUnclosedJsonFence(body: string)
    requires |body| >= 3 && !IsSpace(body[|body| - 1])
    ensures Clean(JsonFence + body) == Strip(body[..|body| - 3])
  {
    var w := JsonFence + body;
    assert w[0] == '`' && w[|w| - 1] == body[|body| - 1];
    CleanTrimmed(w);
    UnfenceUnclosed(body);
  }

  /** The usual shape of a model reply, a "```json" line, the object and a
      closing fence line, cleans to exactly the object. */
  /** Any text sent on its own lines inside a "```json" fence cleans to its
      own strip. */
  lemma CleanFencedLines(obj: string)
    ensures Clean(JsonFence + ("\n" + obj + "\n") + Fence) == Strip(obj)
  {
    var body := "\n" + obj + "\n";
    assert Strip(body) == Strip(obj) by {
      StripPadded("\n", obj, "\n");
    }
    CleanJsonWrapped(body);
  }

  lemma CleanTypicalReply(obj: string)
    requires IsTrimmed(obj)
    ensures Clean(JsonFence + ("\n" + obj + "\n") + Fence) == obj
  {
    StripAround("\n", obj, "\n");
    CleanJsonWrapped("\n" + obj + "\n");
  }
}
