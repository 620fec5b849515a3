/** Python's argument-less `str.split()`: the text broken into maximal runs of
    non-whitespace characters, with every run of whitespace (including leading
    and trailing whitespace) acting as one separator. */
module Words {
  import opened Seqs

  /** Python's `str.isspace()` for one character: the Unicode whitespace on which
      an argument-less `str.split()` breaks (tab, line feed, vertical tab, form
      feed, carriage return, the four information separators, space, next line,
      no-break space, ogham space mark, the en quad to hair space block, line and
      paragraph separators, narrow no-break space, medium mathematical space and
      ideographic space). */
  predicate IsSpace(c: char)
  {
    var n := c as int;
    || (0x09 <= n <= 0x0D)
    || (0x1C <= n <= 0x20)
    || n == 0x85 || n == 0xA0 || n == 0x1680
    || (0x2000 <= n <= 0x200A)
    || n == 0x2028 || n == 0x2029 || n == 0x202F || n == 0x205F || n == 0x3000
  }

  /** A word as `split()` yields it: non-empty and free of whitespace. */
  predicate IsWord(w: string)
  {
    |w| > 0 && forall i :: 0 <= i < |w| ==> !IsSpace(w[i])
  }

  predicate AllWords(ws: seq<string>)
  {
    forall i :: 0 <= i < |ws| ==> IsWord(ws[i])
  }

  predicate AllSpace(s: string)
  {
    forall i :: 0 <= i < |s| ==> IsSpace(s[i])
  }

  /** Length of the leading run of non-whitespace characters: the position of
      the first whitespace character, or the whole length if there is none. */
  function TokenLength(s: string): (k: nat)
    ensures k <= |s|
    ensures forall i :: 0 <= i < k ==> !IsSpace(s[i])
    ensures k < |s| ==> IsSpace(s[k])
  {
    if |s| == 0 || IsSpace(s[0]) then 0 else 1 + TokenLength(s[1..])
  }

  /** `s.split()`: skip whitespace, take the longest run of non-whitespace as
      the next word, repeat. Every piece it yields is a word. */
  function Split(s: string): (words: seq<string>)
    ensures AllWords(words)
    decreases |s|
  {
    if |s| == 0 then []
    else if IsSpace(s[0]) then Split(s[1..])
    else
      var k := TokenLength(s);
      [s[..k]] + Split(s[k..])
  }

  /** The characters of `s` that are not whitespace, in order. */
  function NonSpace(s: string): string
  {
    if |s| == 0 then []
    else (if IsSpace(s[0]) then [] else [s[0]]) + NonSpace(s[1..])
  }

  /** A string with no leading or trailing whitespace in which every whitespace
      character is a single space followed by a non-whitespace character: the
      shape of `" ".join(words)` for a non-empty list of words. */
  predicate SingleSpaced(s: string)
  {
    && |s| > 0
    && !IsSpace(s[0])
    && !IsSpace(s[|s| - 1])
    && forall i :: 0 <= i < |s| - 1 && IsSpace(s[i]) ==> s[i] == ' ' && !IsSpace(s[i + 1])
  }

  lemma {:induction false} NonSpaceAppend(a: string, b: string)
    ensures NonSpace(a + b) == NonSpace(a) + NonSpace(b)
    decreases |a|
  {
    if |a| == 0 {
      assert a + b == b;
    } else {
      assert (a + b)[0] == a[0];
      assert (a + b)[1..] == a[1..] + b;
      NonSpaceAppend(a[1..], b);
    }
  }

  lemma {:induction false} NonSpaceOfSpaceFree(w: string)
    requires forall i :: 0 <= i < |w| ==> !IsSpace(w[i])
    ensures NonSpace(w) == w
    decreases |w|
  {
    if |w| > 0 {
      NonSpaceOfSpaceFree(w[1..]);
      assert [w[0]] + w[1..] == w;
    }
  }

  /** `split()` keeps exactly the non-whitespace characters of its input, in
      order: concatenating the words drops only whitespace. */
  lemma {:induction false} SplitKeepsNonSpace(s: string)
    ensures Flatten(Split(s)) == NonSpace(s)
    decreases |s|
  {
    if |s| > 0 {
      if IsSpace(s[0]) {
        SplitKeepsNonSpace(s[1..]);
      } else {
        var k := TokenLength(s);
        assert s == s[..k] + s[k..];
        SplitKeepsNonSpace(s[k..]);
        NonSpaceAppend(s[..k], s[k..]);
        NonSpaceOfSpaceFree(s[..k]);
        assert ([s[..k]] + Split(s[k..]))[1..] == Split(s[k..]);
      }
    }
  }

  /** `split()` yields nothing exactly when the text is empty or all whitespace. */
  lemma {:induction false} SplitEmptyIff(s: string)
    ensures Split(s) == [] <==> AllSpace(s)
    decreases |s|
  {
    if |s| > 0 {
      SplitEmptyIff(s[1..]);
      if IsSpace(s[0]) {
        assert AllSpace(s) <==> AllSpace(s[1..]) by {
          if AllSpace(s[1..]) {
            forall i | 0 <= i < |s| ensures IsSpace(s[i]) {
              if i > 0 { assert s[i] == s[1..][i - 1]; }
            }
          }
        }
      } else {
        assert !AllSpace(s);
      }
    }
  }

  /** A whitespace character splits the text into two independent halves. */
  lemma {:induction false} SplitAround(a: string, c: char, b: string)
    requires IsSpace(c)
    ensures Split(a + [c] + b) == Split(a) + Split(b)
    decreases |a|, 1
  {
    if |a| == 0 {
      var s := a + [c] + b;
      assert s == [c] + b;
      SplitLeadingSpace(s);
      assert s[1..] == b;
    } else if IsSpace(a[0]) {
      SplitAroundAfterSpace(a, c, b);
    } else {
      SplitAroundAfterWord(a, c, b);
    }
  }

  /** `SplitAround` when `a` starts with whitespace: both sides skip it. */
  lemma {:induction false} SplitAroundAfterSpace(a: string, c: char, b: string)
    requires IsSpace(c) && |a| > 0 && IsSpace(a[0])
    ensures Split(a + [c] + b) == Split(a) + Split(b)
    decreases |a|, 0
  {
    var s := a + [c] + b;
    assert s[0] == a[0];
    SplitLeadingSpace(s);
    SplitLeadingSpace(a);
    assert s[1..] == a[1..] + [c] + b;
    SplitAround(a[1..], c, b);
  }

  /** `SplitAround` when `a` starts with a word: both sides take the same
      first word. */
  lemma {:induction false} SplitAroundAfterWord(a: string, c: char, b: string)
    requires IsSpace(c) && |a| > 0 && !IsSpace(a[0])
    ensures Split(a + [c] + b) == Split(a) + Split(b)
    decreases |a|, 0
  {
    var s := a + [c] + b;
    assert s[0] == a[0];
    var k := TokenLength(a);
    TokenLengthBeforeSpace(a, c, b);
    SplitLeadingWord(s);
    SplitLeadingWord(a);
    CutBefore(a, c, b, k);
    SplitAround(a[k..], c, b);
    ConsAssociative(a[..k], Split(a[k..]), Split(b));
  }

  /** Leading whitespace is skipped. */
  lemma SplitLeadingSpace(s: string)
    requires |s| > 0 && IsSpace(s[0])
    ensures Split(s) == Split(s[1..])
  {
  }

  /** A leading run of non-whitespace is the first word. */
  lemma SplitLeadingWord(s: string)
    requires |s| > 0 && !IsSpace(s[0])
    ensures Split(s) == [s[..TokenLength(s)]] + Split(s[TokenLength(s)..])
  {
  }

  /** A whitespace character after `a` does not lengthen its leading run. */
  lemma TokenLengthBeforeSpace(a: string, c: char, b: string)
    requires IsSpace(c)
    ensures TokenLength(a + [c] + b) == TokenLength(a)
  {
    var s := a + [c] + b;
    assert s[|a|] == c;
    assert forall i :: 0 <= i < |a| ==> s[i] == a[i];
  }

  /** A word splits into itself. */
  lemma {:induction false} SplitWord(w: string)
    requires IsWord(w)
    ensures Split(w) == [w]
  {
    assert TokenLength(w) == |w|;
    assert w[..|w|] == w;
    assert w[|w|..] == [];
  }

  /** Splitting undoes `" ".join(words)`. */
  lemma {:induction false} SplitJoin(ws: seq<string>)
    requires AllWords(ws)
    ensures Split(Join(" ", ws)) == ws
    decreases |ws|
  {
    if |ws| == 1 {
      SplitWord(ws[0]);
    } else if |ws| > 1 {
      SplitWord(ws[0]);
      SplitJoin(ws[1..]);
      SplitAround(ws[0], ' ', Join(" ", ws[1..]));
      assert [ws[0]] + ws[1..] == ws;
    }
  }

  /** `" ".join(words)` of a non-empty list of words is single-spaced. */
  lemma {:induction false} JoinIsSingleSpaced(ws: seq<string>)
    requires |ws| >= 1 && AllWords(ws)
    ensures SingleSpaced(Join(" ", ws))
    decreases |ws|
  {
    if |ws| > 1 {
      JoinIsSingleSpaced(ws[1..]);
      var w := ws[0];
      var t := Join(" ", ws[1..]);
      var s := w + " " + t;
      assert Join(" ", ws) == s;
      forall i | 0 <= i < |s| - 1 && IsSpace(s[i])
        ensures s[i] == ' ' && !IsSpace(s[i + 1])
      {
        assert forall j :: 0 <= j < |w| ==> s[j] == w[j];
        if i > |w| {
          assert s[i] == t[i - |w| - 1];
          assert s[i + 1] == t[i - |w|];
        }
      }
    }
  }

  /** What follows a whitespace character inside a single-spaced text is single-spaced. */
  lemma SingleSpacedAfterSpace(s: string, k: nat)
    requires SingleSpaced(s) && k < |s| && IsSpace(s[k])
    ensures SingleSpaced(s[k + 1..])
  {
    var t := s[k + 1..];
    assert t[0] == s[k + 1];
    forall i | 0 <= i < |t| - 1 && IsSpace(t[i])
      ensures t[i] == ' ' && !IsSpace(t[i + 1])
    {
      assert t[i] == s[k + 1 + i];
      assert t[i + 1] == s[k + 2 + i];
    }
  }

  /** A single-spaced string is exactly `" ".join` of its own words. */
  lemma {:induction false} SingleSpacedIsJoin(s: string)
    requires SingleSpaced(s)
    ensures Join(" ", Split(s)) == s
    decreases |s|
  {
    var k := TokenLength(s);
    if k == |s| {
      assert IsWord(s);
      SplitWord(s);
    } else {
      var w := s[..k];
      var t := s[k + 1..];
      assert s == w + [s[k]] + t;
      assert s[k] == ' ';
      assert 0 < k && k < |s| - 1;
      SingleSpacedAfterSpace(s, k);
      SingleSpacedIsJoin(t);
      assert IsWord(w);
      SplitWord(w);
      SplitAround(w, ' ', t);
      assert Split(s) == [w] + Split(t);
      assert Split(t) != [] by { SplitEmptyIff(t); assert !IsSpace(t[0]); }
      assert ([w] + Split(t))[1..] == Split(t);
    }
  }
}
