/** `highlight_text` of the thought checker: every quote the classifier
    flagged in a journal entry is wrapped, in place, in a hoverable tooltip
    that names the thinking pattern and explains it. */
module Highlighter {
  import opened PyStr

  /** One record returned by the classifier: the quoted span of the entry,
      the name of the thinking pattern and its explanation. */
  datatype Distortion = Distortion(quote: string, thinkingPattern: string, explanation: string)

  /** The opening tag of the visible, highlighted quote. */
  const QuoteOpen: string :=
    "<span class='tooltip' style='border-radius: 5px; padding: 0px 5px; background: #31333F; color: white;'>"
  /** The hidden tooltip text: the pattern in bold, then the explanation. */
  const TipOpen: string := "<span class=\"tooltiptext\"><strong>"
  const TipSeparator: string := "</strong>: "
  const TipClose: string := "</span></span>"

  /** The markup that replaces each occurrence of a quote: the quote stays
      the visible text right after the opening tag, and the tooltip adds the
      pattern, the explanation and a fixed amount of markup. */
  function Tooltip(d: Distortion): (r: string)
    ensures |r| == |d.quote| + |d.thinkingPattern| + |d.explanation| + TooltipOverhead()
    ensures r[..|QuoteOpen|] == QuoteOpen
    ensures r[|QuoteOpen|..|QuoteOpen| + |d.quote|] == d.quote
    ensures Contains(r, d.quote) && Contains(r, d.thinkingPattern) && Contains(r, d.explanation)
  {
    TooltipLayout(QuoteOpen, d.quote, TipOpen, d.thinkingPattern, TipSeparator, d.explanation, TipClose);
    QuoteOpen + d.quote + TipOpen + d.thinkingPattern + TipSeparator + d.explanation + TipClose
  }

  /** Where the fields sit in the tooltip template, for any markup around
      them. */
  lemma TooltipLayout(open: string, q: string, tipOpen: string, p: string, sep: string, e: string, close: string)
    ensures var r := open + q + tipOpen + p + sep + e + close;
      && r[..|open|] == open
      && r[|open|..|open| + |q|] == q
      && r[|open| + |q|..] == tipOpen + p + sep + e + close
      && Contains(r, q) && Contains(r, p) && Contains(r, e)
  {
    var r := open + q + tipOpen + p + sep + e + close;
    assert r == open + q + (tipOpen + p + sep + e + close);
    ContainsMiddle(open, q, tipOpen + p + sep + e + close);
    ContainsMiddle(open + q + tipOpen, p, sep + e + close);
    assert r == (open + q + tipOpen) + p + (sep + e + close);
    ContainsMiddle(open + q + tipOpen + p + sep, e, close);
  }

  /** After the quote comes the hidden tooltip text: the thinking pattern
      in bold, a colon, then the explanation. */
  lemma TooltipShowsFields(d: Distortion)
    ensures Tooltip(d)[|QuoteOpen| + |d.quote|..] == TipOpen + d.thinkingPattern + TipSeparator + d.explanation + TipClose
  {
    TooltipLayout(QuoteOpen, d.quote, TipOpen, d.thinkingPattern, TipSeparator, d.explanation, TipClose);
  }

  /** Length of the fixed markup around the three fields. */
  function TooltipOverhead(): (n: nat)
    ensures n > 0
  {
    |QuoteOpen| + |TipOpen| + |TipSeparator| + |TipClose|
  }

  /** One iteration of the loop: `journal_entry.replace(quote, tooltip)`.
      It changes the text exactly when the quote occurs in it: an absent
      quote is a silent no-op, a present one is always rewritten (the
      tooltip is strictly longer than the quote). */
  function Step(text: string, d: Distortion): (r: string)
    ensures r != text <==> Contains(text, d.quote)
  {
    ReplaceAllChangesIffContains(text, d.quote, Tooltip(d));
    ReplaceAll(text, d.quote, Tooltip(d))
  }

  /** The loop as a left fold: the distortions are applied in list order,
      each to the text the earlier ones produced. An entry that holds none
      of the quotes comes back unchanged. */
  function Highlighted(entry: string, ds: seq<Distortion>): (r: string)
    ensures (forall k :: 0 <= k < |ds| ==> !Contains(entry, ds[k].quote)) ==> r == entry
    decreases |ds|
  {
    if ds == [] then entry else Highlighted(Step(entry, ds[0]), ds[1..])
  }

  /** `highlight_text(journal_entry, distortions)`, the CSS side effect
      dropped: rebinds the entry once per distortion. */
  method HighlightText(entry: string, distortions: seq<Distortion>) returns (r: string)
    ensures r == Highlighted(entry, distortions)
    ensures distortions == [] ==> r == entry
  {
    r := entry;
    for i := 0 to |distortions|
      invariant Highlighted(r, distortions[i..]) == Highlighted(entry, distortions)
    {
      assert distortions[i..][1..] == distortions[i + 1..];
      r := Step(r, distortions[i]);
    }
  }

  /** Highlighting with `a + b` is highlighting with `a`, then with `b`
      applied to that result. */
  lemma {:induction false} HighlightedAppend(entry: string, a: seq<Distortion>, b: seq<Distortion>)
    ensures Highlighted(entry, a + b) == Highlighted(Highlighted(entry, a), b)
    decreases |a|
  {
    if a == [] {
      assert a + b == b;
    } else {
      assert (a + b)[0] == a[0];
      assert (a + b)[1..] == a[1..] + b;
      HighlightedAppend(Step(entry, a[0]), a[1..], b);
    }
  }

  /** The last distortion is applied last, to the text all earlier ones
      produced. */
  lemma HighlightedLast(entry: string, ds: seq<Distortion>, d: Distortion)
    ensures Highlighted(entry, ds + [d]) == Step(Highlighted(entry, ds), d)
  {
    HighlightedAppend(entry, ds, [d]);
    assert [d][1..] == [];
  }

  /** A distortion whose quote does not occur in the text it meets can be
      dropped from the list without changing the result. */
  lemma AbsentQuoteIsSkipped(entry: string, ds: seq<Distortion>, k: nat)
    requires k < |ds|
    requires !Contains(Highlighted(entry, ds[..k]), ds[k].quote)
    ensures Highlighted(entry, ds) == Highlighted(entry, ds[..k] + ds[k + 1..])
  {
    assert ds == ds[..k] + [ds[k]] + ds[k + 1..];
    SkipAbsent(entry, ds[..k], ds[k], ds[k + 1..]);
  }

  lemma SkipAbsent(entry: string, a: seq<Distortion>, d: Distortion, b: seq<Distortion>)
    requires !Contains(Highlighted(entry, a), d.quote)
    ensures Highlighted(entry, a + [d] + b) == Highlighted(entry, a + b)
  {
    HighlightedAppend(entry, a + [d], b);
    HighlightedLast(entry, a, d);
    HighlightedAppend(entry, a, b);
  }

  /** After a step whose quote occurred, the tooltip markup is part of the
      text. */
  lemma StepInsertsTooltip(text: string, d: Distortion)
    requires Contains(text, d.quote)
    ensures Contains(Step(text, d), Tooltip(d))
  {
    var t := Tooltip(d);
    var out := Step(text, d);
    if d.quote == [] {
      if text == [] {
        assert out == t;
      } else {
        assert out == t + [text[0]] + SurroundEach(text[1..], t);
      }
      assert out[0..|t|] == t;
      assert MatchAt(out, t, 0);
    } else {
      var ps := Split(text, d.quote);
      ReplaceAllViaSplit(text, d.quote, t);
      CountPositiveIffContains(text, d.quote);
      JoinCons(ps, t);
      assert out == ps[0] + t + Join(ps[1..], t);
      assert out[|ps[0]|..|ps[0]| + |t|] == t;
      assert MatchAt(out, t, |ps[0]|);
    }
  }

  /** Each step works on the text earlier steps rewrote. Say the first
      occurrence of the earlier quote is at `i`, and the later quote occurs
      at offset `j` of the tooltip inserted there, with no occurrence
      before it in the rewritten text. Then the later step puts its own
      tooltip exactly there, inside the earlier tooltip's markup. */
  lemma LaterQuoteRewritesEarlierMarkup(text: string, d1: Distortion, d2: Distortion, i: int, j: int)
    requires MatchAt(text, d1.quote, i) && NoMatchBefore(text, d1.quote, i)
    requires MatchAt(Tooltip(d1), d2.quote, j)
    requires NoMatchBefore(text[..i] + Tooltip(d1), d2.quote, i + j)
    ensures text[..i] + Tooltip(d1) <= Step(text, d1)
    ensures text[..i] + Tooltip(d1)[..j] + Tooltip(d2) <= Highlighted(text, [d1, d2])
    ensures Highlighted(text, [d1, d2]) != Step(text, d1)
  {
    ReplaceInsideReplacement(text, d1.quote, Tooltip(d1), i, d2.quote, Tooltip(d2), j);
    var mid := Step(text, d1);
    assert Contains(mid, d2.quote);
    assert [d1][1..] == [] && [d1, d2][1..] == [d2] && [d2][1..] == [];
    assert Highlighted(text, [d1, d2]) == Step(mid, d2);
  }

  /** The worked example: one labelled quote in a one-sentence entry is
      wrapped once, and the rest of the sentence is left as it was. */
  lemma LabelingExample(explanation: string)
    ensures Highlighted("I am a failure.", [Distortion("a failure", "Labeling", explanation)])
         == "I am " + Tooltip(Distortion("a failure", "Labeling", explanation)) + "."
  {
    var d := Distortion("a failure", "Labeling", explanation);
    var s: string := "I am a failure.";
    var q: string := "a failure";
    var ps: seq<string> := ["I am ", "."];
    assert Join(ps, q) == s;
    forall j | 0 <= j < |ps[0]|
      ensures !MatchAt(ps[0] + q, q, j)
    {
      var t := ps[0] + q;
      if j == 2 {
        assert t[j + 1] != q[1];
      } else {
        assert t[j] != q[0];
      }
    }
    assert !Contains(ps[1], q);
    ReplaceAllSpec(s, q, Tooltip(d), ps);
    assert [d][1..] == [];
  }
}
