/**
  The part of Go's `strings` package the REPL relies on, over ASCII:
  `ToLower` folds the letters A-Z, and `Fields` splits a string around runs of
  whitespace. Non-ASCII characters are never whitespace and are left as they
  are.
 */
module Strings {

  /** ASCII whitespace: space, tab, line feed, vertical tab, form feed, carriage return. */
  predicate IsSpace(c: char)
  {
    c == ' ' || c == '\t' || c == '\n' || c == '\U{000B}' || c == '\U{000C}' || c == '\r'
  }

  predicate IsUpper(c: char)
  {
    'A' <= c <= 'Z'
  }

  predicate AllSpace(s: string)
  {
    forall i :: 0 <= i < |s| ==> IsSpace(s[i])
  }

  /** A field: a non-empty string without whitespace. */
  predicate IsWord(w: string)
  {
    |w| > 0 && forall i :: 0 <= i < |w| ==> !IsSpace(w[i])
  }

  predicate NoUpper(s: string)
  {
    forall c :: c in s ==> !IsUpper(c)
  }

  /** `unicode.ToLower` on one character, for ASCII letters. */
  function LowerChar(c: char): (d: char)
    ensures !IsUpper(d)
    ensures IsSpace(d) <==> IsSpace(c)
    ensures IsUpper(c) ==> 'a' <= d <= 'z' && d as int - 'a' as int == c as int - 'A' as int
    ensures !IsUpper(c) ==> d == c
  {
    if IsUpper(c) then (c as int - 'A' as int + 'a' as int) as char else c
  }

  /** `strings.ToLower`. */
  function ToLower(s: string): (r: string)
    ensures |r| == |s|
    ensures NoUpper(r)
    ensures forall i :: 0 <= i < |s| ==> (IsSpace(r[i]) <==> IsSpace(s[i]))
    ensures forall i :: 0 <= i < |s| && IsUpper(s[i]) ==> r[i] as int == s[i] as int - 'A' as int + 'a' as int
    ensures forall i :: 0 <= i < |s| && !IsUpper(s[i]) ==> r[i] == s[i]
  {
    seq(|s|, i requires 0 <= i < |s| => LowerChar(s[i]))
  }

  /**
    The length of the longest prefix of `s` whose characters are all
    whitespace (`space`) or all not whitespace (`!space`).
   */
  function Span(s: string, space: bool): (n: nat)
    ensures n <= |s|
    ensures forall i :: 0 <= i < n ==> IsSpace(s[i]) == space
    ensures n < |s| ==> IsSpace(s[n]) != space
  {
    if |s| == 0 || IsSpace(s[0]) != space then 0 else 1 + Span(s[1..], space)
  }

  /** Where the first field of `s` ends: the first whitespace after it, or the end of `s`. */
  function WordEnd(s: string): (j: nat)
    requires Span(s, true) < |s|
    ensures Span(s, true) < j <= |s|
    ensures j < |s| ==> IsSpace(s[j])
    ensures forall i :: Span(s, true) <= i < j ==> !IsSpace(s[i])
  {
    Span(s, true) + Span(s[Span(s, true)..], false)
  }

  /** `strings.Fields`: the maximal runs of non-whitespace characters, in order. */
  function Fields(s: string): (ws: seq<string>)
    ensures forall w :: w in ws ==> IsWord(w)
    decreases |s|
  {
    if Span(s, true) == |s| then []
    else [s[Span(s, true)..WordEnd(s)]] + Fields(s[WordEnd(s)..])
  }

  /** The words glued together with nothing between them. */
  function Concat(ws: seq<string>): string
  {
    if |ws| == 0 then "" else ws[0] + Concat(ws[1..])
  }

  /** `strings.Join`: the words with `sep` between neighbours. */
  function Join(ws: seq<string>, sep: string): string
  {
    if |ws| == 0 then ""
    else if |ws| == 1 then ws[0]
    else ws[0] + sep + Join(ws[1..], sep)
  }

  /** The string with its whitespace characters deleted. */
  function RemoveSpaces(s: string): string
  {
    if |s| == 0 then ""
    else (if IsSpace(s[0]) then "" else [s[0]]) + RemoveSpaces(s[1..])
  }

  /** `seps[0] + ws[0] + seps[1] + ... + ws[n-1] + seps[n]`. */
  function Interleave(ws: seq<string>, seps: seq<string>): string
    requires |seps| == |ws| + 1
  {
    if |ws| == 0 then seps[0] else seps[0] + ws[0] + Interleave(ws[1..], seps[1..])
  }

  /**
    Separators for a whitespace-separated layout: all whitespace, and the
    inner ones (between two words) non-empty.
   */
  predicate Separators(seps: seq<string>)
  {
    && |seps| >= 1
    && (forall i :: 0 <= i < |seps| ==> AllSpace(seps[i]))
    && (forall i :: 0 < i < |seps| - 1 ==> |seps[i]| > 0)
  }

  /** The whitespace that `Fields` drops: what lies before, between and after its words. */
  ghost function Gaps(s: string): (seps: seq<string>)
    ensures |seps| == |Fields(s)| + 1
    ensures seps[0] == s[..Span(s, true)]
    decreases |s|
  {
    if Span(s, true) == |s| then [s]
    else [s[..Span(s, true)]] + Gaps(s[WordEnd(s)..])
  }

  /** `Span` is determined by its contract. */
  lemma SpanUnique(s: string, space: bool, n: nat)
    requires n <= |s|
    requires forall i :: 0 <= i < n ==> IsSpace(s[i]) == space
    requires n < |s| ==> IsSpace(s[n]) != space
    ensures Span(s, space) == n
  {
  }

  /** Leading whitespace lengthens the leading whitespace run by its own length. */
  lemma SpanAfterSpaces(a: string, t: string)
    requires AllSpace(a)
    ensures Span(a + t, true) == |a| + Span(t, true)
  {
    var s := a + t;
    var n := |a| + Span(t, true);
    forall i | 0 <= i < n
      ensures IsSpace(s[i])
    {
      if i < |a| {
        assert s[i] == a[i];
      } else {
        assert s[i] == t[i - |a|];
      }
    }
    if n < |s| {
      assert s[n] == t[Span(t, true)];
    }
    SpanUnique(s, true, n);
  }

  /** After leading whitespace, the first field and what follows it are those of the rest. */
  lemma FirstWordAfterSpaces(a: string, t: string)
    requires AllSpace(a)
    requires Span(t, true) < |t|
    ensures Span(a + t, true) < |a + t|
    ensures (a + t)[Span(a + t, true)..WordEnd(a + t)] == t[Span(t, true)..WordEnd(t)]
    ensures (a + t)[WordEnd(a + t)..] == t[WordEnd(t)..]
  {
    var s := a + t;
    SpanAfterSpaces(a, t);
    var it, i := Span(t, true), Span(s, true);
    assert s[i..] == t[it..];
    assert WordEnd(s) == |a| + WordEnd(t);
  }

  /** Two strings with the same first field and the same remainder after it have the same fields. */
  lemma FieldsSameFirstWord(s: string, t: string)
    requires Span(s, true) < |s| && Span(t, true) < |t|
    requires s[Span(s, true)..WordEnd(s)] == t[Span(t, true)..WordEnd(t)]
    requires s[WordEnd(s)..] == t[WordEnd(t)..]
    ensures Fields(s) == Fields(t)
  {
  }

  /** Leading whitespace does not change the fields. */
  lemma FieldsSkipSpaces(a: string, t: string)
    requires AllSpace(a)
    ensures Fields(a + t) == Fields(t)
  {
    if Span(t, true) < |t| {
      FirstWordAfterSpaces(a, t);
      FieldsSameFirstWord(a + t, t);
    } else {
      SpanAfterSpaces(a, t);
      FieldsStep(a + t);
      FieldsStep(t);
    }
  }

  /** A word followed by nothing or by whitespace is the first field. */
  lemma FieldsCons(w: string, t: string)
    requires IsWord(w)
    requires |t| == 0 || IsSpace(t[0])
    ensures Fields(w + t) == [w] + Fields(t)
  {
    var s := w + t;
    SpanUnique(s, true, 0);
    assert s[0..] == s;
    SpanUnique(s, false, |w|);
    assert WordEnd(s) == |w|;
    assert s[0..|w|] == w;
    assert s[|w|..] == t;
  }

  /** A string has no fields exactly when it is all whitespace. */
  lemma FieldsEmpty(s: string)
    ensures Fields(s) == [] <==> AllSpace(s)
  {
  }

  /** A non-empty sequence is its head followed by its tail. */
  lemma HeadTail(ws: seq<string>)
    requires |ws| > 0
    ensures [ws[0]] + ws[1..] == ws
  {
  }

  lemma SeparatorsTail(seps: seq<string>)
    requires Separators(seps) && |seps| >= 2
    ensures Separators(seps[1..])
  {
  }

  /** After the first word of a layout comes either nothing or whitespace. */
  lemma LayoutRestStartsWithSpace(ws: seq<string>, seps: seq<string>)
    requires |seps| == |ws| + 1 && |ws| > 0
    requires Separators(seps)
    ensures var rest := Interleave(ws[1..], seps[1..]); |rest| == 0 || IsSpace(rest[0])
  {
  }

  /** Whitespace-separated words are split back into exactly those words. */
  lemma {:induction false} FieldsOfLayout(ws: seq<string>, seps: seq<string>)
    requires |seps| == |ws| + 1
    requires Separators(seps)
    requires forall w :: w in ws ==> IsWord(w)
    ensures Fields(Interleave(ws, seps)) == ws
    decreases |ws|
  {
    if |ws| == 0 {
      FieldsEmpty(seps[0]);
    } else {
      var rest := Interleave(ws[1..], seps[1..]);
      assert Interleave(ws, seps) == seps[0] + (ws[0] + rest);
      FieldsSkipSpaces(seps[0], ws[0] + rest);
      LayoutRestStartsWithSpace(ws, seps);
      assert ws[0] in ws;
      FieldsCons(ws[0], rest);
      SeparatorsTail(seps);
      FieldsOfLayout(ws[1..], seps[1..]);
      HeadTail(ws);
    }
  }

  /** `Fields` one step at a time. */
  lemma FieldsStep(s: string)
    ensures Span(s, true) == |s| ==> Fields(s) == []
    ensures Span(s, true) < |s| ==> Fields(s) == [s[Span(s, true)..WordEnd(s)]] + Fields(s[WordEnd(s)..])
  {
  }

  /** `Fields` and `Gaps` one step at a time. */
  lemma FieldsUnfold(s: string)
    ensures Span(s, true) == |s| ==> Fields(s) == [] && Gaps(s) == [s]
    ensures Span(s, true) < |s| ==>
              && Fields(s) == [s[Span(s, true)..WordEnd(s)]] + Fields(s[WordEnd(s)..])
              && Gaps(s) == [s[..Span(s, true)]] + Gaps(s[WordEnd(s)..])
  {
  }

  /** `Gaps` one step at a time. */
  lemma GapsStep(s: string)
    ensures Span(s, true) == |s| ==> Gaps(s) == [s]
    ensures Span(s, true) < |s| ==> Gaps(s) == [s[..Span(s, true)]] + Gaps(s[WordEnd(s)..])
  {
  }

  /** Whitespace in front of separators whose first one is non-empty when it is inner. */
  lemma SeparatorsCons(lead: string, g: seq<string>)
    requires AllSpace(lead)
    requires Separators(g)
    requires |g| > 1 ==> |g[0]| > 0
    ensures Separators([lead] + g)
  {
  }

  /** The gaps are whitespace, and those between two fields are non-empty. */
  lemma {:induction false} GapsAreSeparators(s: string)
    ensures Separators(Gaps(s))
    decreases |s|
  {
    GapsStep(s);
    if Span(s, true) < |s| {
      var i, j := Span(s, true), WordEnd(s);
      var rest := s[j..];
      GapsAreSeparators(rest);
      var g := Gaps(rest);
      if |g| > 1 {
        FieldsStep(rest);
        assert IsSpace(rest[0]);
      }
      SeparatorsCons(s[..i], g);
    }
  }

  lemma InterleaveCons(w: string, ws: seq<string>, sep: string, seps: seq<string>)
    requires |seps| == |ws| + 1
    ensures Interleave([w] + ws, [sep] + seps) == sep + w + Interleave(ws, seps)
  {
  }

  lemma SplitThree(s: string, i: nat, j: nat)
    requires i <= j <= |s|
    ensures s[..i] + s[i..j] + s[j..] == s
  {
  }

  /** Every string is its fields laid out between its gaps. */
  lemma {:induction false} FieldsDecompose(s: string)
    ensures Separators(Gaps(s))
    ensures Interleave(Fields(s), Gaps(s)) == s
    decreases |s|
  {
    GapsAreSeparators(s);
    FieldsUnfold(s);
    if Span(s, true) < |s| {
      var i, j := Span(s, true), WordEnd(s);
      var rest := s[j..];
      FieldsDecompose(rest);
      InterleaveCons(s[i..j], Fields(rest), s[..i], Gaps(rest));
      SplitThree(s, i, j);
    }
  }

  /**
    `Fields(s)` is the one sequence of words that can be laid out with
    whitespace separators to give `s`.
   */
  lemma FieldsCharacterization(s: string, ws: seq<string>)
    ensures Fields(s) == ws <==>
              (forall w :: w in ws ==> IsWord(w)) &&
              exists seps :: |seps| == |ws| + 1 && Separators(seps) && Interleave(ws, seps) == s
  {
    if Fields(s) == ws {
      FieldsDecompose(s);
      var seps := Gaps(s);
      assert |seps| == |ws| + 1 && Separators(seps) && Interleave(ws, seps) == s;
    }
    if (forall w :: w in ws ==> IsWord(w)) &&
       exists seps :: |seps| == |ws| + 1 && Separators(seps) && Interleave(ws, seps) == s {
      var seps :| |seps| == |ws| + 1 && Separators(seps) && Interleave(ws, seps) == s;
      FieldsOfLayout(ws, seps);
    }
  }

  lemma {:induction false} RemoveSpacesAppend(a: string, b: string)
    ensures RemoveSpaces(a + b) == RemoveSpaces(a) + RemoveSpaces(b)
    decreases |a|
  {
    if |a| > 0 {
      assert (a + b)[1..] == a[1..] + b;
      RemoveSpacesAppend(a[1..], b);
      assert RemoveSpaces(a + b) == (if IsSpace(a[0]) then "" else [a[0]]) + RemoveSpaces(a[1..] + b);
    } else {
      assert a + b == b;
    }
  }

  lemma {:induction false} RemoveSpacesOfSpaces(s: string)
    requires AllSpace(s)
    ensures RemoveSpaces(s) == ""
    decreases |s|
  {
    if |s| > 0 {
      RemoveSpacesOfSpaces(s[1..]);
    }
  }

  lemma {:induction false} RemoveSpacesOfWord(w: string)
    requires forall i :: 0 <= i < |w| ==> !IsSpace(w[i])
    ensures RemoveSpaces(w) == w
    decreases |w|
  {
    if |w| > 0 {
      RemoveSpacesOfWord(w[1..]);
      assert [w[0]] + w[1..] == w;
    }
  }

  /** Gluing a word in front of others. */
  lemma ConcatCons(w: string, ws: seq<string>)
    ensures Concat([w] + ws) == w + Concat(ws)
  {
  }

  /** Deleting the whitespace of leading whitespace, a word and a remainder. */
  lemma RemoveSpacesAroundWord(lead: string, w: string, rest: string)
    requires AllSpace(lead)
    requires forall i :: 0 <= i < |w| ==> !IsSpace(w[i])
    ensures RemoveSpaces(lead + w + rest) == w + RemoveSpaces(rest)
  {
    calc {
      RemoveSpaces(lead + w + rest);
      { RemoveSpacesAppend(lead + w, rest); }
      RemoveSpaces(lead + w) + RemoveSpaces(rest);
      { RemoveSpacesAppend(lead, w); }
      RemoveSpaces(lead) + RemoveSpaces(w) + RemoveSpaces(rest);
      { RemoveSpacesOfSpaces(lead); RemoveSpacesOfWord(w); }
      "" + w + RemoveSpaces(rest);
      { assert "" + w == w; }
      w + RemoveSpaces(rest);
    }
  }

  /** Gluing the fields together gives the string with its whitespace deleted. */
  lemma {:induction false} FieldsConcat(s: string)
    ensures Concat(Fields(s)) == RemoveSpaces(s)
    decreases |s|
  {
    FieldsStep(s);
    if Span(s, true) == |s| {
      RemoveSpacesOfSpaces(s);
    } else {
      var i, j := Span(s, true), WordEnd(s);
      var rest := s[j..];
      FieldsConcat(rest);
      ConcatCons(s[i..j], Fields(rest));
      SplitThree(s, i, j);
      RemoveSpacesAroundWord(s[..i], s[i..j], rest);
    }
  }

  /** Joining words with single spaces and splitting again gives the words back. */
  lemma {:induction false} FieldsOfJoin(ws: seq<string>)
    requires forall w :: w in ws ==> IsWord(w)
    ensures Fields(Join(ws, " ")) == ws
    decreases |ws|
  {
    if |ws| == 0 {
      FieldsEmpty("");
    } else if |ws| == 1 {
      assert ws[0] in ws;
      FieldsCons(ws[0], "");
      FieldsEmpty("");
      assert ws[0] + "" == ws[0];
    } else {
      var rest := Join(ws[1..], " ");
      assert Join(ws, " ") == ws[0] + (" " + rest);
      assert ws[0] in ws;
      FieldsCons(ws[0], " " + rest);
      FieldsSkipSpaces(" ", rest);
      FieldsOfJoin(ws[1..]);
      HeadTail(ws);
    }
  }

  /** Splitting is idempotent through a single-space join. */
  lemma FieldsIdempotent(s: string)
    ensures Fields(Join(Fields(s), " ")) == Fields(s)
  {
    FieldsOfJoin(Fields(s));
  }

  /** The fields of a string without upper-case letters have none either. */
  lemma {:induction false} FieldsNoUpper(s: string)
    requires NoUpper(s)
    ensures forall w :: w in Fields(s) ==> NoUpper(w)
    decreases |s|
  {
    if Span(s, true) < |s| {
      var rest := s[WordEnd(s)..];
      assert forall c :: c in rest ==> c in s;
      FieldsNoUpper(rest);
      var w := s[Span(s, true)..WordEnd(s)];
      assert forall c :: c in w ==> c in s;
    }
  }

  /** Joining lower-case words with a lower-case separator gives a lower-case string. */
  lemma {:induction false} JoinNoUpper(ws: seq<string>, sep: string)
    requires forall w :: w in ws ==> NoUpper(w)
    requires NoUpper(sep)
    ensures NoUpper(Join(ws, sep))
    decreases |ws|
  {
    if |ws| > 1 {
      JoinNoUpper(ws[1..], sep);
      assert ws[0] in ws;
    } else if |ws| == 1 {
      assert ws[0] in ws;
    }
  }

  /** Lower-casing twice is lower-casing once. */
  lemma ToLowerIdempotent(s: string)
    ensures ToLower(ToLower(s)) == ToLower(s)
  {
  }

  /** A string without upper-case letters is its own lower-case form. */
  lemma ToLowerOfLower(s: string)
    requires NoUpper(s)
    ensures ToLower(s) == s
  {
  }
}
