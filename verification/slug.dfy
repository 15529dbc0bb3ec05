/** `generateSlug` of the category form (src/pages/admin/Categories.tsx):
    lower-case the name, turn every run of characters outside `[a-z0-9]`
    into one hyphen, then drop a hyphen at either end. */
module Slug {
  import opened Basics
  import opened Text

  predicate NotHyphen(c: char) { c != '-' }

  /** The characters a slug is made of: `a`-`z`, `0`-`9` and `-`. */
  predicate InSlugAlphabet(c: char) { IsLowerAlnum(c) || c == '-' }

  ghost predicate OverSlugAlphabet(s: string)
  {
    forall i :: 0 <= i < |s| ==> InSlugAlphabet(s[i])
  }

  ghost predicate NoDoubleHyphen(s: string)
  {
    forall i :: 0 <= i < |s| - 1 ==> !(s[i] == '-' && s[i + 1] == '-')
  }

  /** A well-formed slug: slug alphabet only, no two hyphens in a row, no
      hyphen at either end. */
  ghost predicate IsSlug(s: string)
  {
    && OverSlugAlphabet(s)
    && NoDoubleHyphen(s)
    && (|s| > 0 ==> s[0] != '-' && s[|s| - 1] != '-')
  }

  /** `replace(/[^a-z0-9]+/g, "-")`: every maximal run of characters outside
      `[a-z0-9]` becomes a single hyphen. Written as a left-to-right scan: a
      separator adds a hyphen unless the output already ends in one. */
  function CollapseRuns(s: string): (r: string)
    ensures OverSlugAlphabet(r)
    ensures NoDoubleHyphen(r)
    ensures (|r| > 0 && r[|r| - 1] == '-') <==> (|s| > 0 && !IsLowerAlnum(s[|s| - 1]))
  {
    if |s| == 0 then []
    else
      var p := CollapseRuns(s[..|s| - 1]);
      var c := s[|s| - 1];
      if IsLowerAlnum(c) then p + [c]
      else if |p| > 0 && p[|p| - 1] == '-' then p
      else p + ['-']
  }

  /** Collapsing keeps the letters and digits and adds nothing but hyphens:
      without its hyphens the output is the input's `[a-z0-9]`, in order. */
  lemma {:induction false} CollapseRunsKeepsLettersAndDigits(s: string)
    ensures Filter(CollapseRuns(s), NotHyphen) == Filter(s, IsLowerAlnum)
  {
    if |s| > 0 {
      var init := s[..|s| - 1];
      var c := s[|s| - 1];
      var p := CollapseRuns(init);
      CollapseRunsKeepsLettersAndDigits(init);
      assert s == init + [c];
      FilterAppend(init, [c], IsLowerAlnum);
      if IsLowerAlnum(c) {
        FilterAppend(p, [c], NotHyphen);
      } else if !(|p| > 0 && p[|p| - 1] == '-') {
        FilterAppend(p, ['-'], NotHyphen);
      }
    }
  }

  /** `replace(/(^-|-$)/g, "")`: removes one hyphen at the start and one at the end. */
  function TrimEdgeHyphens(s: string): (r: string)
    ensures |r| <= |s|
  {
    var a := if |s| > 0 && s[0] == '-' then s[1..] else s;
    if |a| > 0 && a[|a| - 1] == '-' then a[..|a| - 1] else a
  }

  /** Dropping the edge hyphens of collapsed text leaves a well-formed slug. */
  lemma TrimEdgeHyphensMakesSlug(s: string)
    requires OverSlugAlphabet(s) && NoDoubleHyphen(s)
    ensures IsSlug(TrimEdgeHyphens(s))
  {
    var a := if |s| > 0 && s[0] == '-' then s[1..] else s;
    assert OverSlugAlphabet(a) && NoDoubleHyphen(a);
    assert |a| > 0 ==> a[0] != '-';
  }

  /** Dropping the edge hyphens removes nothing but hyphens. */
  lemma TrimEdgeHyphensKeepsLettersAndDigits(s: string)
    ensures Filter(TrimEdgeHyphens(s), NotHyphen) == Filter(s, NotHyphen)
  {
    var a := if |s| > 0 && s[0] == '-' then s[1..] else s;
    assert Filter(a, NotHyphen) == Filter(s, NotHyphen) by {
      if |s| > 0 && s[0] == '-' {
        assert s == ['-'] + a;
        FilterAppend(['-'], a, NotHyphen);
      }
    }
    if |a| > 0 && a[|a| - 1] == '-' {
      var r := a[..|a| - 1];
      assert a == r + ['-'];
      FilterAppend(r, ['-'], NotHyphen);
    }
  }

  /** The slug the category form derives from a name. */
  function GenerateSlug(name: string): (slug: string)
    ensures IsSlug(slug)
    ensures Filter(slug, NotHyphen) == Filter(Lower(name), IsLowerAlnum)
  {
    var collapsed := CollapseRuns(Lower(name));
    CollapseRunsKeepsLettersAndDigits(Lower(name));
    TrimEdgeHyphensMakesSlug(collapsed);
    TrimEdgeHyphensKeepsLettersAndDigits(collapsed);
    TrimEdgeHyphens(collapsed)
  }

  /** Collapsing changes nothing in text that is already over the slug
      alphabet without doubled hyphens. */
  lemma {:induction false} CollapseRunsKeepsSlugText(s: string)
    requires OverSlugAlphabet(s) && NoDoubleHyphen(s)
    ensures CollapseRuns(s) == s
  {
    if |s| > 0 {
      var init := s[..|s| - 1];
      CollapseRunsKeepsSlugText(init);
      assert s == init + [s[|s| - 1]];
    }
  }

  /** A well-formed slug is its own slug. */
  lemma GenerateSlugKeepsSlugs(s: string)
    requires IsSlug(s)
    ensures GenerateSlug(s) == s
  {
    LowerKeepsLowercase(s);
    CollapseRunsKeepsSlugText(s);
  }

  /** Deriving a slug twice gives the same slug as deriving it once. */
  lemma GenerateSlugIdempotent(name: string)
    ensures GenerateSlug(GenerateSlug(name)) == GenerateSlug(name)
  {
    GenerateSlugKeepsSlugs(GenerateSlug(name));
  }

  /** The strings the slug function leaves alone are exactly the well-formed slugs. */
  lemma GenerateSlugFixedPoints(s: string)
    ensures GenerateSlug(s) == s <==> IsSlug(s)
  {
    if IsSlug(s) {
      GenerateSlugKeepsSlugs(s);
    }
  }

  // ---------------------------------------------------------------------------
  // A one-pass formulation, proved equal to the three chained replacements.

  lemma TrimAfterLetter(c0: string, c: char)
    requires OverSlugAlphabet(c0) && NoDoubleHyphen(c0) && IsLowerAlnum(c)
    ensures TrimEdgeHyphens(c0 + [c])
      == if |c0| > 0 && c0[|c0| - 1] == '-' && |TrimEdgeHyphens(c0)| > 0
         then TrimEdgeHyphens(c0) + ['-', c]
         else TrimEdgeHyphens(c0) + [c]
  {
    var s := c0 + [c];
    var a := if |c0| > 0 && c0[0] == '-' then c0[1..] else c0;
    assert (if |s| > 0 && s[0] == '-' then s[1..] else s) == a + [c];
    if |c0| > 0 && c0[|c0| - 1] == '-' {
      if |a| == 0 {
        assert TrimEdgeHyphens(c0) == [];
      } else {
        assert a[|a| - 1] == '-';
        assert a == TrimEdgeHyphens(c0) + ['-'];
      }
    }
  }

  lemma TrimAfterHyphen(c0: string)
    requires |c0| == 0 || c0[|c0| - 1] != '-'
    ensures TrimEdgeHyphens(c0 + ['-']) == TrimEdgeHyphens(c0)
  {
    var s := c0 + ['-'];
    if |c0| > 0 && c0[0] == '-' {
      assert s[1..] == c0[1..] + ['-'];
    }
  }

  /** A letter or digit in the single pass is appended to the slug, after a
      hyphen when a separator is pending and the slug is not empty. */
  lemma OnePassLetter(prefix: string, c: char, slug: string, pending: bool)
    requires IsLowerAlnum(c)
    requires slug == TrimEdgeHyphens(CollapseRuns(prefix))
    requires pending <==> |prefix| > 0 && !IsLowerAlnum(prefix[|prefix| - 1])
    ensures TrimEdgeHyphens(CollapseRuns(prefix + [c])) == if pending && |slug| > 0 then slug + ['-', c] else slug + [c]
  {
    var c0 := CollapseRuns(prefix);
    CollapseRunsSnocAlnum(prefix, c);
    TrimAfterLetter(c0, c);
  }

  /** Any other character leaves the slug as it is. */
  lemma OnePassSeparator(prefix: string, c: char)
    requires !IsLowerAlnum(c)
    ensures TrimEdgeHyphens(CollapseRuns(prefix + [c])) == TrimEdgeHyphens(CollapseRuns(prefix))
  {
    var c0 := CollapseRuns(prefix);
    CollapseRunsSnoc(prefix, c);
    if !(|c0| > 0 && c0[|c0| - 1] == '-') {
      TrimAfterHyphen(c0);
    }
  }

  /** Computes the slug in a single left-to-right pass that remembers whether a
      separator is pending, and agrees with `GenerateSlug` on every name. */
  method SlugInOnePass(name: string) returns (slug: string)
    ensures slug == GenerateSlug(name)
  {
    ghost var t := Lower(name);
    slug := [];
    var pending := false;
    var i := 0;
    while i < |name|
      invariant 0 <= i <= |name|
      invariant slug == TrimEdgeHyphens(CollapseRuns(t[..i]))
      invariant pending <==> i > 0 && !IsLowerAlnum(t[i - 1])
    {
      var c := LowerChar(name[i]);
      assert t[..i + 1] == t[..i] + [c];
      if IsLowerAlnum(c) {
        OnePassLetter(t[..i], c, slug, pending);
        if pending && |slug| > 0 {
          slug := slug + ['-', c];
        } else {
          slug := slug + [c];
        }
        pending := false;
      } else {
        OnePassSeparator(t[..i], c);
        pending := true;
      }
      i := i + 1;
    }
    assert t[..i] == t;
  }

  /** One step of the collapsing: appending a character to the input. */
  lemma CollapseRunsSnoc(p: string, c: char)
    ensures CollapseRuns(p + [c]) ==
      if IsLowerAlnum(c) then CollapseRuns(p) + [c]
      else if |CollapseRuns(p)| > 0 && CollapseRuns(p)[|CollapseRuns(p)| - 1] == '-' then CollapseRuns(p)
      else CollapseRuns(p) + ['-']
  {
    assert (p + [c])[..|p|] == p;
  }

  /** A letter or digit at the end is copied. */
  lemma CollapseRunsSnocAlnum(p: string, c: char)
    requires IsLowerAlnum(c)
    ensures CollapseRuns(p + [c]) == CollapseRuns(p) + [c]
  {
    assert (p + [c])[..|p|] == p;
  }

  /** Letters and digits pass through the collapsing unchanged. */
  lemma {:induction false} CollapseRunsAppendAlnum(a: string, b: string)
    requires forall i :: 0 <= i < |b| ==> IsLowerAlnum(b[i])
    ensures CollapseRuns(a + b) == CollapseRuns(a) + b
    decreases |b|
  {
    if |b| == 0 {
      assert a + b == a;
    } else {
      var c := b[0];
      var tail := b[1..];
      var ac := a + [c];
      assert IsLowerAlnum(c);
      CollapseRunsSnocAlnum(a, c);
      CollapseRunsAppendAlnum(ac, tail);
      assert a + b == ac + tail;
      assert CollapseRuns(a) + [c] + tail == CollapseRuns(a) + b;
    }
  }

  /** A run of separators after a letter or digit becomes exactly one hyphen. */
  lemma {:induction false} CollapseRunsAppendSeparators(a: string, sep: string)
    requires |a| > 0 && IsLowerAlnum(a[|a| - 1])
    requires |sep| > 0 && forall i :: 0 <= i < |sep| ==> !IsLowerAlnum(sep[i])
    ensures CollapseRuns(a + sep) == CollapseRuns(a) + "-"
    decreases |sep|
  {
    var init := sep[..|sep| - 1];
    var c := sep[|sep| - 1];
    var ai := a + init;
    assert !IsLowerAlnum(c);
    assert a + sep == ai + [c];
    if |init| == 0 {
      assert ai == a;
      assert CollapseRuns(a + [c]) == CollapseRuns(a) + ['-'] by {
        CollapseRunsSnoc(a, c);
      }
    } else {
      assert forall i :: 0 <= i < |init| ==> !IsLowerAlnum(init[i]);
      CollapseRunsAppendSeparators(a, init);
      assert CollapseRuns(ai + [c]) == CollapseRuns(ai) by {
        CollapseRunsSnoc(ai, c);
      }
    }
  }

  // The steps of the worked example below.

  lemma ExampleLower()
    ensures Lower("Sci-Fi & Fantasy") == "sci-fi & fantasy"
  {
  }

  lemma ExampleKeep()
    ensures CollapseRuns("sci-fi") == "sci-fi"
  {
    CollapseRunsKeepsSlugText("sci-fi");
  }

  lemma ExampleParts()
    ensures "sci-fi" + " & " == "sci-fi & "
    ensures "sci-fi & " + "fantasy" == "sci-fi & fantasy"
    ensures "sci-fi-" + "fantasy" == "sci-fi-fantasy"
  {
  }

  lemma ExampleSep()
    ensures CollapseRuns("sci-fi & ") == "sci-fi-"
  {
    ExampleKeep();
    ExampleParts();
    CollapseRunsAppendSeparators("sci-fi", " & ");
  }

  lemma ExampleCollapse()
    ensures CollapseRuns("sci-fi & fantasy") == "sci-fi-fantasy"
  {
    ExampleSep();
    ExampleParts();
    CollapseRunsAppendAlnum("sci-fi & ", "fantasy");
  }

  lemma ExampleTrim()
    ensures TrimEdgeHyphens("sci-fi-fantasy") == "sci-fi-fantasy"
  {
  }

  /** A category name with punctuation and spaces: "Sci-Fi & Fantasy" gives
      "sci-fi-fantasy". */
  lemma GenerateSlugExample()
    ensures GenerateSlug("Sci-Fi & Fantasy") == "sci-fi-fantasy"
  {
    ExampleLower();
    ExampleCollapse();
    ExampleTrim();
  }
}
