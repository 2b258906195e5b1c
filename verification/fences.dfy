/** The post-processing both summarizers apply to a language model's reply:
    drop a leading "```html", then a leading "```", then a trailing "```",
    then strip surrounding whitespace. */
module Fences {
  import opened Strings

  const Backticks: string := "```"
  const HtmlOpening: string := "```html"

  /** One pass of the fence post-processing: the three fence steps of
      `Unfence`, which cut a prefix and a suffix, then `strip()`.
      `GuardedReplace` and `GuardedRSplit` show that those cuts are what
      `replace(p, "", 1)` under a `startswith(p)` guard and
      `rsplit("```", 1)[0]` under an `endswith("```")` guard compute. */
  function StripFence(s: string): (r: string)
    ensures Trimmed(r) && |r| <= |s|
  {
    Strip(Unfence(s))
  }

  /** The three fence steps, before the final `strip()`; `UnfenceSlices`
      gives the exact cut. */
  function Unfence(s: string): (r: string)
    ensures |r| <= |s|
  {
    DropClosing(DropOpening(DropOpening(s, HtmlOpening), Backticks))
  }

  /** The fence steps as plain slicing: they only ever cut the prefix
      `OpeningLength` counts and the suffix `ClosingLength` counts. */
  lemma UnfenceSlices(s: string)
    ensures Unfence(s) == s[OpeningLength(s)..|s| - ClosingLength(s)]
  {
  }

  lemma StripFenceSlices(s: string)
    ensures StripFence(s) == Strip(s[OpeningLength(s)..|s| - ClosingLength(s)])
  {
    UnfenceSlices(s);
  }

  /** `if s.startswith(p): s = s.replace(p, "", 1)`; `GuardedReplace`
      shows the call deletes exactly the prefix. */
  function DropOpening(s: string, p: string): (r: string)
    ensures StartsWith(s, p) ==> p + r == s
    ensures !StartsWith(s, p) ==> r == s
  {
    if StartsWith(s, p) then s[|p|..] else s
  }

  /** `if s.endswith("```"): s = s.rsplit("```", 1)[0]`; `GuardedRSplit`
      shows the call deletes exactly the suffix. */
  function DropClosing(s: string): (r: string)
    ensures EndsWith(s, Backticks) ==> r + Backticks == s
    ensures !EndsWith(s, Backticks) ==> r == s
  {
    if EndsWith(s, Backticks) then s[..|s| - |Backticks|] else s
  }

  /** Under its `startswith` guard, `replace(p, "", 1)` removes the prefix. */
  lemma GuardedReplace(s: string, p: string)
    ensures StartsWith(s, p) ==> ReplaceFirst(s, p) == DropOpening(s, p)
  {
    if StartsWith(s, p) {
      assert (p + ReplaceFirst(s, p))[|p|..] == ReplaceFirst(s, p);
    }
  }

  /** Under its `endswith` guard, `rsplit("```", 1)[0]` removes the suffix. */
  lemma GuardedRSplit(s: string)
    ensures EndsWith(s, Backticks) ==> RSplitHead(s, Backticks) == DropClosing(s)
  {
    if EndsWith(s, Backticks) {
      var r := RSplitHead(s, Backticks);
      assert (r + Backticks)[..|r|] == r;
    }
  }

  /** How many characters the opening steps remove: "```html" (7), then
      possibly a further "```" (3), or a bare "```" (3), or nothing. */
  function OpeningLength(s: string): (n: nat)
    ensures n <= |s|
  {
    if StartsWith(s, HtmlOpening) then
      if StartsWith(s[|HtmlOpening|..], Backticks) then 10 else 7
    else if StartsWith(s, Backticks) then 3
    else 0
  }

  /** How many characters the closing step removes: a "```" that ends what
      the opening steps left, or nothing. */
  function ClosingLength(s: string): (n: nat)
    ensures OpeningLength(s) + n <= |s|
  {
    if EndsWith(s[OpeningLength(s)..], Backticks) then 3 else 0
  }

  // ---------------------------------------------------------------------
  // What one pass does

  /** At most one "```html", then one "```", come off the front. */
  lemma OpeningShape(s: string)
    ensures s[..OpeningLength(s)] in {"", Backticks, HtmlOpening, HtmlOpening + Backticks}
    ensures OpeningLength(s) >= |HtmlOpening| <==> StartsWith(s, HtmlOpening)
    ensures OpeningLength(s) == 0 <==> !StartsWith(s, Backticks)
    ensures OpeningLength(s) == |HtmlOpening + Backticks| <==> StartsWith(s, HtmlOpening + Backticks)
  {
    if StartsWith(s, HtmlOpening) {
      assert s[..7][..3] == s[..3];
      if OpeningLength(s) == 10 {
        assert s[..10] == s[..7] + s[7..][..3];
      }
    } else if !StartsWith(s, Backticks) {
      assert s[..0] == "";
    }
  }

  /** At most one "```" comes off the back, and only when what the opening
      steps left ends with one. */
  lemma ClosingShape(s: string)
    ensures s[|s| - ClosingLength(s)..] in {"", Backticks}
    ensures ClosingLength(s) == 0 <==> !EndsWith(s[OpeningLength(s)..], Backticks)
  {
    var rest := s[OpeningLength(s)..];
    if EndsWith(rest, Backticks) {
      assert s[|s| - 3..] == rest[|rest| - 3..];
    } else {
      assert s[|s|..] == "";
    }
  }

  /** The result is a contiguous piece of the input: only a prefix and a
      suffix are removed, so every inner "```" survives. */
  lemma StripFenceIsSlice(s: string)
    ensures IsSlice(StripFence(s), s)
  {
    var t := s[OpeningLength(s)..|s| - ClosingLength(s)];
    assert SliceAt(t, s, OpeningLength(s), |s| - ClosingLength(s));
    StripFenceSlices(s);
    StripIsSlice(t);
    SliceTransitive(StripFence(s), t, s);
  }

  /** Text that neither starts nor ends with a fence is only stripped. */
  lemma UnfencedOnlyStripped(s: string)
    requires !StartsWith(s, Backticks) && !EndsWith(s, Backticks)
    ensures StripFence(s) == Strip(s)
  {
    assert !StartsWith(s, HtmlOpening) by {
      if |s| >= 7 { assert s[..7][..3] == s[..3]; }
    }
    assert Unfence(s) == s;
  }

  /** "```html" + body + "```" gives back the stripped body, as long as the
      body does not itself open with a fence. */
  lemma HtmlFencedBody(t: string)
    requires !StartsWith(t, Backticks)
    ensures StripFence(HtmlOpening + t + Backticks) == Strip(t)
  {
    HtmlFencedUnfence(t);
  }

  lemma HtmlFencedUnfence(t: string)
    requires !StartsWith(t, Backticks)
    ensures Unfence(HtmlOpening + t + Backticks) == t
  {
    var s := HtmlOpening + t + Backticks;
    var rest := t + Backticks;
    assert s[..7] == HtmlOpening;
    assert DropOpening(s, HtmlOpening) == rest;
    if |t| < 3 {
      if StartsWith(rest, Backticks) {
        // a short body of backticks loses the closing fence's backticks
        // at the front instead, which leaves it intact
        forall k | 0 <= k < |t|
          ensures t[k] == '`'
        {
          assert t[k] == rest[..3][k];
        }
        assert rest == Backticks + t;
        assert DropOpening(rest, Backticks) == t;
        assert !EndsWith(t, Backticks);
      } else {
        assert rest[..|rest| - 3] == t;
      }
    } else {
      assert rest[..3] == t[..3];
      assert rest[..|rest| - 3] == t;
    }
  }

  /** "```" + body + "```" gives back the stripped body, as long as the body
      does not begin with "html". */
  lemma PlainFencedBody(t: string)
    requires !StartsWith(t, "html")
    ensures StripFence(Backticks + t + Backticks) == Strip(t)
  {
    PlainFencedUnfence(t);
  }

  lemma PlainFencedUnfence(t: string)
    requires !StartsWith(t, "html")
    ensures Unfence(Backticks + t + Backticks) == t
  {
    var s := Backticks + t + Backticks;
    var rest := t + Backticks;
    assert !StartsWith(s, HtmlOpening) by {
      if |t| >= 4 {
        assert s[3..7] == t[..4];
      } else if |t| > 0 {
        assert s[6] == '`';
      }
    }
    assert s[..3] == Backticks;
    assert DropOpening(s, Backticks) == rest;
    assert rest[..|rest| - 3] == t;
  }

  /** The exchange the program is built to clean up: a fenced HTML reply. */
  lemma FencedHtmlReply()
    ensures StripFence("```html<p>Hi</p>```") == "<p>Hi</p>"
  {
    var body := "<p>Hi</p>";
    assert "```html<p>Hi</p>```" == HtmlOpening + body + Backticks;
    assert body[..3][0] == '<';
    HtmlFencedUnfence(body);
    StripTrimmed(body);
  }

  /** One pass is not idempotent: a second pass can remove another fence. */
  lemma NotIdempotent()
    ensures StripFence("``````x") == "```x"
    ensures StripFence(StripFence("``````x")) == "x"
  {
    UnfenceDoubleOpening();
    StripTrimmed("```x");
    UnfenceSingleOpening();
    StripTrimmed("x");
  }

  lemma UnfenceDoubleOpening()
    ensures Unfence("``````x") == "```x"
  {
    var s := "``````x";
    assert !StartsWith(s, HtmlOpening) by { assert s[..7][3] != HtmlOpening[3]; }
    assert s[..3] == Backticks;
    assert s[3..] == "```x";
    assert !EndsWith("```x", Backticks) by { assert "```x"[1..][2] != '`'; }
  }

  lemma UnfenceSingleOpening()
    ensures Unfence("```x") == "x"
  {
    assert !StartsWith("```x", HtmlOpening);
    assert "```x"[..3] == Backticks;
    assert "```x"[3..] == "x";
  }

  /** Two passes can leave nothing even though one pass left something:
      "``` ``````" becomes "```" and then "". */
  lemma SecondPassEmpties()
    ensures StripFence("``` ``````") == "```"
    ensures StripFence(StripFence("``` ``````")) == ""
  {
    UnfenceSpacedFences();
    StripSpacedFence();
    UnfenceBareFence();
    StripTrimmed("");
  }

  lemma UnfenceSpacedFences()
    ensures Unfence("``` ``````") == " ```"
  {
    var s := "``` ``````";
    assert !StartsWith(s, HtmlOpening) by { assert s[..7][3] != HtmlOpening[3]; }
    assert s[..3] == Backticks;
    var a := " ``````";
    assert s[3..] == a;
    assert a[|a| - 3..] == Backticks;
    assert a[..|a| - 3] == " ```";
  }

  lemma StripSpacedFence()
    ensures Strip(" ```") == "```"
  {
    assert TrimAt("```", " ```", 1, 4) by {
      assert " ```"[1..4] == "```" && " ```"[..1] == " " && " ```"[4..] == "";
    }
    TrimIsStrip("```", " ```");
  }

  lemma UnfenceBareFence()
    ensures Unfence("```") == ""
  {
    assert !StartsWith("```", HtmlOpening);
    assert "```"[..3] == Backticks;
  }
}
