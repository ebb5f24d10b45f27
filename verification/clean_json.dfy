/** `clean_ai_json`: removes a Markdown code-fence wrapper from the model's
    reply before it is handed to the JSON parser. Only three fixed literals
    are recognised: an opening "```json" (case-sensitive, tag glued to the
    backticks), an opening "```" and a closing "```". Every removal is
    followed by `strip()`. The opening side can lose both "```json" and a
    "```" that follows it (`JsonThenFence`); the closing side loses at most
    one "```" (`DoubleClosingFence`). */
module CleanJson {
  import opened Strings

  const Fence: string := "```"
  const JsonFence: string := "```json"

  predicate NoBacktick(s: string) {
    forall k | 0 <= k < |s| :: s[k] != '`'
  }

  /** First test: a "```json" opening, removed together with the whitespace
      around what is left. */
  function DropJsonFence(s: string): (r: string)
    ensures |r| <= |s|
    ensures StartsWith(s, JsonFence) ==> |r| <= |s| - |JsonFence|
    ensures StartsWith(s, JsonFence) ==> IsTrimmed(r)
    ensures !StartsWith(s, JsonFence) ==> r == s
  {
    if StartsWith(s, JsonFence) then Strip(s[|JsonFence|..]) else s
  }

  /** Second test, on the first one's output: a bare "```" opening (which is
      also what remains of "```JSON", "```python", "````"). */
  function DropOpeningFence(s: string): (r: string)
    ensures |r| <= |s|
    ensures StartsWith(s, Fence) ==> |r| <= |s| - |Fence|
    ensures StartsWith(s, Fence) ==> IsTrimmed(r)
    ensures !StartsWith(s, Fence) ==> r == s
  {
    if StartsWith(s, Fence) then Strip(s[|Fence|..]) else s
  }

  /** Third test, on the second one's output: one closing "```". */
  function DropClosingFence(s: string): (r: string)
    ensures |r| <= |s|
    ensures EndsWith(s, Fence) ==> |r| <= |s| - |Fence|
    ensures EndsWith(s, Fence) ==> IsTrimmed(r)
    ensures !EndsWith(s, Fence) ==> r == s
  {
    if EndsWith(s, Fence) then Strip(s[..|s| - |Fence|]) else s
  }

  /** What each test keeps when its fence is present: the fence goes, and of
      the rest exactly the trimmed middle is kept, whatever whitespace
      surrounds it. Every string has such a split (`StripShape`), so these
      pin down each test on every input. */
  lemma DropJsonFenceKeeps(s: string, ws1: string, m: string, ws2: string)
    requires StartsWith(s, JsonFence) && s[|JsonFence|..] == ws1 + m + ws2
    requires AllSpace(ws1) && AllSpace(ws2) && IsTrimmed(m)
    ensures DropJsonFence(s) == m
  {
    StripParts(ws1, m, ws2);
  }

  lemma DropOpeningFenceKeeps(s: string, ws1: string, m: string, ws2: string)
    requires StartsWith(s, Fence) && s[|Fence|..] == ws1 + m + ws2
    requires AllSpace(ws1) && AllSpace(ws2) && IsTrimmed(m)
    ensures DropOpeningFence(s) == m
  {
    StripParts(ws1, m, ws2);
  }

  lemma DropClosingFenceKeeps(s: string, ws1: string, m: string, ws2: string)
    requires EndsWith(s, Fence) && s[..|s| - |Fence|] == ws1 + m + ws2
    requires AllSpace(ws1) && AllSpace(ws2) && IsTrimmed(m)
    ensures DropClosingFence(s) == m
  {
    StripParts(ws1, m, ws2);
  }

  /** A trimmed middle between two whitespace runs is what `strip` keeps. */
  lemma StripParts(ws1: string, m: string, ws2: string)
    requires AllSpace(ws1) && AllSpace(ws2) && IsTrimmed(m)
    ensures Strip(ws1 + m + ws2) == m
  {
    var x := ws1 + m + ws2;
    SpaceInside([], ws1, m + ws2);
    assert [] + ws1 + (m + ws2) == x;
    SpaceInside(ws1 + m, ws2, []);
    assert (ws1 + m) + ws2 + [] == x;
    assert x[|ws1|..|ws1| + |m|] == m;
    StripUnique(x, |ws1|, |ws1| + |m|);
  }

  /** Each of the three tests returns a contiguous run of its input. */
  lemma JsonStepIsInfix(s: string)
    ensures IsInfix(DropJsonFence(s), s)
  {
    if StartsWith(s, JsonFence) {
      StripSuffixIsInfix(s, |JsonFence|);
    } else {
      IsInfixRefl(s);
    }
  }

  lemma OpeningStepIsInfix(s: string)
    ensures IsInfix(DropOpeningFence(s), s)
  {
    if StartsWith(s, Fence) {
      StripSuffixIsInfix(s, |Fence|);
    } else {
      IsInfixRefl(s);
    }
  }

  lemma ClosingStepIsInfix(s: string)
    ensures IsInfix(DropClosingFence(s), s)
  {
    if EndsWith(s, Fence) {
      StripPrefixIsInfix(s, |s| - |Fence|);
    } else {
      IsInfixRefl(s);
    }
  }

  lemma JsonFenceIsFence(s: string)
    ensures StartsWith(s, JsonFence) ==> StartsWith(s, Fence)
  {
    if StartsWith(s, JsonFence) {
      assert s[..|Fence|] == s[..|JsonFence|][..|Fence|];
    }
  }

  /** The three tests in the order the source applies them. The reply is
      returned untouched when no fence is present at either end, and it is
      whitespace-trimmed when one was; `CleanIsInfix` adds that it is a
      contiguous run of the input. */
  function CleanAiJson(raw: string): (r: string)
    ensures |r| <= |raw|
    ensures !StartsWith(raw, Fence) && !EndsWith(raw, Fence) ==> r == raw
    ensures StartsWith(raw, Fence) || EndsWith(raw, Fence) ==> IsTrimmed(r)
  {
    JsonFenceIsFence(raw);
    DropClosingFence(DropOpeningFence(DropJsonFence(raw)))
  }

  /** Cleaning never invents or reorders text: the result is one contiguous
      run of the reply. */
  lemma CleanIsInfix(raw: string)
    ensures IsInfix(CleanAiJson(raw), raw)
  {
    var s1 := DropJsonFence(raw);
    var s2 := DropOpeningFence(s1);
    JsonStepIsInfix(raw);
    OpeningStepIsInfix(s1);
    ClosingStepIsInfix(s2);
    InfixTransitive(s2, s1, raw);
    InfixTransitive(CleanAiJson(raw), s2, raw);
  }

  /** A string whose first character is not a backtick has no opening fence
      of either kind. */
  lemma NoOpeningFence(s: string)
    requires |s| > 0 && s[0] != '`'
    ensures !StartsWith(s, Fence) && !StartsWith(s, JsonFence)
  {
    StartsWithAt(s, Fence, 0);
    JsonFenceIsFence(s);
  }

  lemma NoFenceUnchanged(s: string)
    requires NoBacktick(s)
    ensures CleanAiJson(s) == s
  {
    if |s| > 0 {
      NoOpeningFence(s);
      if |s| >= |Fence| {
        EndsWithAt(s, Fence, 0);
      }
    }
  }

  /** Whitespace placed at `|a|` inside `a + w + b` is whitespace there. */
  lemma SpaceInside(a: string, w: string, b: string)
    requires AllSpace(w)
    ensures SpaceBetween(a + w + b, |a|, |a| + |w|)
  {
    forall k | |a| <= k < |a| + |w| ensures IsSpace((a + w + b)[k]) {
      assert (a + w + b)[k] == w[k - |a|];
    }
  }

  /** Stripping a fenced body keeps the body, the whitespace after it and
      the closing fence; an empty body leaves just the fence. */
  lemma StripBeforeClosingFence(ws1: string, s: string, ws2: string)
    requires AllSpace(ws1) && AllSpace(ws2) && IsTrimmed(s) && NoBacktick(s)
    ensures Strip(ws1 + s + ws2 + Fence) == if s == [] then Fence else s + ws2 + Fence
  {
    if s == [] {
      assert ws1 + s + ws2 + Fence == ws1 + ws2 + Fence;
      StripSpacesThenFence(ws1, ws2);
    } else {
      var t := s + ws2 + Fence;
      assert t[0] == s[0] && t[|t| - 1] == '`';
      assert ws1 + s + ws2 + Fence == ws1 + t;
      StripSpacesThenBody(ws1, t);
    }
  }

  lemma StripSpacesThenFence(ws1: string, ws2: string)
    requires AllSpace(ws1) && AllSpace(ws2)
    ensures Strip(ws1 + ws2 + Fence) == Fence
  {
    var x := ws1 + ws2 + Fence;
    SpaceInside([], ws1, ws2 + Fence);
    assert [] + ws1 + (ws2 + Fence) == x;
    SpaceInside(ws1, ws2, Fence);
    assert x[|ws1| + |ws2|..|x|] == Fence;
    StripUnique(x, |ws1| + |ws2|, |x|);
  }

  lemma StripSpacesThenBody(ws1: string, t: string)
    requires AllSpace(ws1) && t != [] && !IsSpace(t[0]) && t[|t| - 1] == '`'
    ensures Strip(ws1 + t) == t
  {
    var x := ws1 + t;
    SpaceInside([], ws1, t);
    assert [] + ws1 + t == x;
    assert x[|ws1|..|x|] == t;
    assert !IsSpace('`');
    StripUnique(x, |ws1|, |x|);
  }

  /** A non-empty body followed by whitespace and a closing fence: the
      opening test leaves it alone, the closing test returns the body. */
  lemma ClosingFenceLeavesBody(s: string, ws2: string)
    requires AllSpace(ws2) && IsTrimmed(s) && NoBacktick(s) && s != []
    ensures DropOpeningFence(s + ws2 + Fence) == s + ws2 + Fence
    ensures DropClosingFence(s + ws2 + Fence) == s
  {
    var t := s + ws2 + Fence;
    assert t[0] == s[0];
    NoOpeningFence(t);
    assert t[|t| - |Fence|..] == Fence;
    var u := t[..|t| - |Fence|];
    assert u == s + ws2;
    assert u[0..|s|] == s;
    SpaceInside(s, ws2, []);
    assert s + ws2 + [] == u;
    StripUnique(u, 0, |s|);
  }

  /** A reply fenced as "```json", with any whitespace on either side of a
      trimmed, backtick-free body, cleans to exactly that body, which itself
      cleans to itself. */
  lemma JsonFenceRoundTrip(ws1: string, s: string, ws2: string)
    requires AllSpace(ws1) && AllSpace(ws2) && IsTrimmed(s) && NoBacktick(s)
    ensures CleanAiJson(JsonFence + ws1 + s + ws2 + Fence) == s
    ensures CleanAiJson(s) == s
  {
    var raw := JsonFence + ws1 + s + ws2 + Fence;
    assert raw[..|JsonFence|] == JsonFence;
    assert raw[|JsonFence|..] == ws1 + s + ws2 + Fence;
    StripBeforeClosingFence(ws1, s, ws2);
    if s == [] {
      assert Fence[..|Fence|] == Fence && Fence[|Fence|..] == [];
      StripTrimmed([]);
    } else {
      ClosingFenceLeavesBody(s, ws2);
    }
    NoFenceUnchanged(s);
  }

  /** An opening "```" followed by a character that is not a letter of
      "json" is not the "```json" literal. */
  lemma NotJsonFenceAt(raw: string, k: nat)
    requires 3 <= k < |JsonFence| && k < |raw|
    requires IsSpace(raw[k]) || raw[k] == '`'
    ensures !StartsWith(raw, JsonFence)
  {
    StartsWithAt(raw, JsonFence, k);
  }

  /** A reply fenced by a bare "```" cleans to its body, provided the body
      is not glued to the fence with a leading "json"; a different tag, as
      in "```JSON" or "```python", is left in the body. */
  lemma OpeningFenceRoundTrip(ws1: string, s: string, ws2: string)
    requires AllSpace(ws1) && AllSpace(ws2) && IsTrimmed(s) && NoBacktick(s)
    requires |ws1| > 0 || !StartsWith(s, "json")
    ensures CleanAiJson(Fence + ws1 + s + ws2 + Fence) == s
    ensures CleanAiJson(s) == s
  {
    var raw := Fence + ws1 + s + ws2 + Fence;
    var rest := ws1 + s + ws2 + Fence;
    assert raw[..|Fence|] == Fence;
    assert raw[|Fence|..] == rest;
    if |ws1| > 0 {
      assert raw[3] == ws1[0];
      NotJsonFenceAt(raw, 3);
    } else if |s| >= 4 {
      assert raw[3..7] == s[..4];
      StartsWithSlice(raw, JsonFence);
    } else {
      var k := 3 + |s|;
      assert raw[k] == (ws2 + Fence)[0];
      NotJsonFenceAt(raw, k);
    }
    StripBeforeClosingFence(ws1, s, ws2);
    if s == [] {
      assert Fence[..0] == [];
      StripTrimmed([]);
    } else {
      ClosingFenceLeavesBody(s, ws2);
    }
    NoFenceUnchanged(s);
  }

  lemma StartsWithSlice(raw: string, p: string)
    requires p == JsonFence && |raw| >= |p|
    ensures StartsWith(raw, p) ==> raw[3..7] == "json"
  {
    if StartsWith(raw, p) {
      assert raw[3..7] == raw[..7][3..7];
    }
  }

  /** The form the prompt's own examples come back in: "```\n…\n```". */
  lemma NewlineFenceRoundTrip(s: string)
    requires IsTrimmed(s) && NoBacktick(s)
    ensures CleanAiJson(Fence + "\n" + s + "\n" + Fence) == s
  {
    assert IsSpace('\n');
    OpeningFenceRoundTrip("\n", s, "\n");
  }

  /** An upper-case tag is not the "```json" literal: only the three
      backticks go, and the tag stays in front of the JSON. */
  lemma UpperCaseTagKept()
    ensures CleanAiJson("```JSON\n{}") == "JSON\n{}"
  {
    var raw := "```JSON\n{}";
    StartsWithAt(raw, JsonFence, 3);
    assert raw[..|Fence|] == Fence;
    var body := raw[|Fence|..];
    assert body == "JSON\n{}";
    assert !IsSpace(body[0]) && !IsSpace(body[|body| - 1]);
    StripTrimmed(body);
    assert NoBacktick(body);
    NoFenceUnchanged(body);
  }

  /** A tag that merely begins with "json" is cut after those four letters:
      "```jsonc\n{}" cleans to "c\n{}". */
  lemma JsonPrefixedTagCut()
    ensures CleanAiJson("```jsonc\n{}") == "c\n{}"
  {
    var raw := "```jsonc\n{}";
    assert raw[..|JsonFence|] == JsonFence;
    var body := raw[|JsonFence|..];
    assert body == "c\n{}";
    assert !IsSpace(body[0]) && !IsSpace(body[|body| - 1]);
    StripTrimmed(body);
    StartsWithAt(body, Fence, 0);
    EndsWithAt(body, Fence, 0);
  }

  /** With no opening fence, cleaning is the closing test alone. */
  lemma OnlyClosingTest(raw: string)
    requires |raw| > 0 && raw[0] != '`'
    ensures CleanAiJson(raw) == DropClosingFence(raw)
  {
    NoOpeningFence(raw);
  }

  /** A trimmed, backtick-free body with just a closing fence cleans to the
      body. */
  lemma ClosingFenceOnly(t: string)
    requires IsTrimmed(t) && NoBacktick(t) && t != []
    ensures CleanAiJson(t + Fence) == t
  {
    var u := t + Fence;
    assert u[0] == t[0];
    OnlyClosingTest(u);
    assert u[..|u| - |Fence|] == t;
    assert u[|u| - |Fence|..] == Fence;
    StripTrimmed(t);
  }

  /** Appending a closing fence to a trimmed string keeps it trimmed. */
  lemma FenceKeepsTrimmed(t: string)
    requires IsTrimmed(t) && t != []
    ensures IsTrimmed(t + Fence)
  {
    assert (t + Fence)[0] == t[0];
    assert (t + Fence)[|t| + 2] == '`';
    assert !IsSpace('`');
  }

  /** Only one closing fence is removed: a body that ends in two fences
      keeps the second. */
  lemma DoubleClosingFence(t: string)
    requires IsTrimmed(t) && NoBacktick(t) && t != []
    ensures CleanAiJson(t + Fence + Fence) == t + Fence
  {
    var u := t + Fence;
    var raw := u + Fence;
    FenceKeepsTrimmed(t);
    StripTrimmed(u);
    assert raw[0] == t[0];
    OnlyClosingTest(raw);
    assert raw[..|raw| - |Fence|] == u;
    assert raw[|raw| - |Fence|..] == Fence;
  }

  /** Hence a second cleaning changes the result again: the function is
      not idempotent. */
  lemma NotIdempotent(t: string)
    requires IsTrimmed(t) && NoBacktick(t) && t != []
    ensures CleanAiJson(CleanAiJson(t + Fence + Fence)) == t
    ensures CleanAiJson(CleanAiJson(t + Fence + Fence)) != CleanAiJson(t + Fence + Fence)
  {
    DoubleClosingFence(t);
    ClosingFenceOnly(t);
    assert |t + Fence| != |t|;
  }

  /** On the opening side both literals can go: "```json" directly followed
      by "```" loses all ten backticks and letters. */
  lemma JsonThenFence(s: string)
    requires IsTrimmed(s) && NoBacktick(s)
    ensures CleanAiJson(JsonFence + Fence + s) == s
  {
    var raw := JsonFence + Fence + s;
    var t := Fence + s;
    assert raw[..|JsonFence|] == JsonFence;
    assert raw[|JsonFence|..] == t;
    FenceBodyTrimmed(s);
    StripTrimmed(t);
    assert t[..|Fence|] == Fence && t[|Fence|..] == s;
    StripTrimmed(s);
    if |s| >= |Fence| {
      EndsWithAt(s, Fence, 0);
    }
  }

  /** A fence in front of a trimmed body keeps it trimmed. */
  lemma FenceBodyTrimmed(s: string)
    requires IsTrimmed(s)
    ensures IsTrimmed(Fence + s)
  {
    assert (Fence + s)[0] == '`' && !IsSpace('`');
    if s != [] {
      assert (Fence + s)[|Fence + s| - 1] == s[|s| - 1];
    }
  }

  /** A concrete instance: "x``````" cleans to "x```", and that to "x". */
  lemma SixBackticks()
    ensures CleanAiJson("x``````") == "x```"
    ensures CleanAiJson("x```") == "x"
  {
    assert !IsSpace('x');
    assert "x``````" == "x" + Fence + Fence;
    assert "x```" == "x" + Fence;
    DoubleClosingFence("x");
    ClosingFenceOnly("x");
  }
}
