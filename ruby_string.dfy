/**
 * The two Ruby String operations the step template relies on, over strings
 * taken as sequences of code points: `String#index` with a string argument,
 * and `String#gsub` with a literal string pattern and a plain replacement.
 * Both scan the text left to right by position.
 */
module RubyString {
  import opened Wrappers

  /** `t` occurs in `s` starting at position `j`. */
  predicate OccursAt(s: string, t: string, j: nat)
  {
    j + |t| <= |s| && s[j..j + |t|] == t
  }

  /** The leftmost occurrence of `t` in `s` at or after position `k`, or nil. */
  function IndexFrom(s: string, t: string, k: nat): (r: Option<nat>)
    requires k <= |s|
    ensures r.Some? ==> k <= r.value && OccursAt(s, t, r.value)
    ensures r.Some? ==> forall j :: k <= j < r.value ==> !OccursAt(s, t, j)
    ensures r.None? ==> forall j :: k <= j <= |s| ==> !OccursAt(s, t, j)
    decreases |s| - k
  {
    if OccursAt(s, t, k) then Some(k)
    else if k == |s| then None
    else IndexFrom(s, t, k + 1)
  }

  /** `String#index(t)`: the position of the leftmost occurrence of `t` in `s`, or nil. */
  function Index(s: string, t: string): (r: Option<nat>)
    ensures r.Some? ==> OccursAt(s, t, r.value) && forall j :: 0 <= j < r.value ==> !OccursAt(s, t, j)
    ensures r.None? ==> forall j :: 0 <= j <= |s| ==> !OccursAt(s, t, j)
  {
    IndexFrom(s, t, 0)
  }

  /** `t` occurs somewhere in `s` (Ruby's `s.index(t)` is truthy, position 0 included). */
  predicate Contains(s: string, t: string)
    ensures Contains(s, t) <==> exists j :: 0 <= j <= |s| && OccursAt(s, t, j)
  {
    Index(s, t).Some?
  }

  /**
   * The scan of `s.gsub(pat, rep)` from position `k` on: a match of the
   * literal pattern at the scan position is replaced by `rep` and the scan
   * resumes after it; any other character is copied. With an empty pattern
   * Ruby inserts `rep` before every character and once at the end.
   */
  function ReplaceFrom(s: string, pat: string, rep: string, k: nat): string
    requires k <= |s|
    decreases |s| - k
  {
    if |pat| == 0 then
      if k == |s| then rep else rep + [s[k]] + ReplaceFrom(s, pat, rep, k + 1)
    else if |s| < k + |pat| then s[k..]
    else if OccursAt(s, pat, k) then rep + ReplaceFrom(s, pat, rep, k + |pat|)
    else [s[k]] + ReplaceFrom(s, pat, rep, k + 1)
  }

  /** `s.gsub(pat, rep)` with a literal string pattern. */
  function ReplaceAll(s: string, pat: string, rep: string): string
  {
    ReplaceFrom(s, pat, rep, 0)
  }

  /** A pattern that does not occur from `k` on leaves the rest of the text as it is. */
  lemma {:induction false} ReplaceAbsentFrom(s: string, pat: string, rep: string, k: nat)
    requires |pat| > 0 && k <= |s|
    requires forall j :: k <= j <= |s| ==> !OccursAt(s, pat, j)
    ensures ReplaceFrom(s, pat, rep, k) == s[k..]
    decreases |s| - k
  {
    if k + |pat| <= |s| {
      ReplaceAbsentFrom(s, pat, rep, k + 1);
      assert s[k..] == [s[k]] + s[k + 1..];
    }
  }

  /** No occurrence starts at a character that differs from the pattern's first. */
  lemma NoOccurrenceAt(s: string, t: string, j: nat)
    requires |t| > 0 && j < |s| && s[j] != t[0]
    ensures !OccursAt(s, t, j)
  {
    if j + |t| <= |s| { assert s[j..j + |t|][0] == s[j]; }
  }

  /** A match at the scan position is replaced, and the scan resumes after it. */
  lemma ReplaceMatch(s: string, pat: string, rep: string, k: nat)
    requires |pat| > 0 && OccursAt(s, pat, k)
    ensures ReplaceFrom(s, pat, rep, k) == rep + ReplaceFrom(s, pat, rep, k + |pat|)
  {
  }

  /** A character where no match starts is copied. */
  lemma ReplaceSkip(s: string, pat: string, rep: string, k: nat)
    requires |pat| > 0 && k + |pat| <= |s| && !OccursAt(s, pat, k)
    ensures ReplaceFrom(s, pat, rep, k) == [s[k]] + ReplaceFrom(s, pat, rep, k + 1)
  {
  }

  /** A pattern that does not occur leaves the text as it is. */
  lemma ReplaceAbsent(s: string, pat: string, rep: string)
    requires |pat| > 0 && !Contains(s, pat)
    ensures ReplaceAll(s, pat, rep) == s
  {
    ReplaceAbsentFrom(s, pat, rep, 0);
  }

  /** The character at `k` followed by the slice after it, then `t`: the slice from `k`, then `t`. */
  lemma PrependToSlice(s: string, k: nat, i: nat, t: string)
    requires k < i <= |s|
    ensures [s[k]] + (s[k + 1..i] + t) == s[k..i] + t
  {
    assert [s[k]] + s[k + 1..i] == s[k..i];
  }

  /**
   * The first match at or after `k`, at `i`, is the next one replaced:
   * the characters before it are copied and the scan resumes after it.
   */
  lemma {:induction false} ReplaceAtFirstFrom(s: string, pat: string, rep: string, k: nat, i: nat)
    requires |pat| > 0 && k <= i && OccursAt(s, pat, i)
    requires forall j :: k <= j < i ==> !OccursAt(s, pat, j)
    ensures ReplaceFrom(s, pat, rep, k) == s[k..i] + (rep + ReplaceFrom(s, pat, rep, i + |pat|))
    decreases i - k
  {
    var after := rep + ReplaceFrom(s, pat, rep, i + |pat|);
    if k < i {
      assert !OccursAt(s, pat, k);
      ReplaceSkip(s, pat, rep, k);
      ReplaceAtFirstFrom(s, pat, rep, k + 1, i);
      PrependToSlice(s, k, i, after);
    } else {
      ReplaceMatch(s, pat, rep, k);
      assert s[k..i] == [];
    }
  }

  /**
   * The leftmost occurrence is the first one replaced: everything before it
   * is copied, and the scan resumes right after it.
   */
  lemma ReplaceAtFirst(s: string, pat: string, rep: string)
    requires |pat| > 0 && Contains(s, pat)
    ensures var i := Index(s, pat).value;
      ReplaceAll(s, pat, rep) == s[..i] + (rep + ReplaceFrom(s, pat, rep, i + |pat|))
  {
    ReplaceAtFirstFrom(s, pat, rep, 0, Index(s, pat).value);
  }

  /** Deleting a pattern never lengthens the rest of the text. */
  lemma {:induction false} DeleteShrinksFrom(s: string, pat: string, k: nat)
    requires |pat| > 0 && k <= |s|
    ensures |ReplaceFrom(s, pat, [], k)| <= |s| - k
    decreases |s| - k
  {
    if |s| < k + |pat| {
    } else if OccursAt(s, pat, k) {
      DeleteShrinksFrom(s, pat, k + |pat|);
      ReplaceMatch(s, pat, [], k);
    } else {
      DeleteShrinksFrom(s, pat, k + 1);
      ReplaceSkip(s, pat, [], k);
    }
  }

  /** Deleting a pattern that occurs makes the text shorter by at least the pattern's length. */
  lemma DeleteShrinks(s: string, pat: string)
    requires |pat| > 0
    ensures |ReplaceAll(s, pat, [])| <= |s|
    ensures Contains(s, pat) ==> |ReplaceAll(s, pat, [])| <= |s| - |pat|
  {
    DeleteShrinksFrom(s, pat, 0);
    if Contains(s, pat) {
      var i := Index(s, pat).value;
      ReplaceAtFirst(s, pat, []);
      DeleteShrinksFrom(s, pat, i + |pat|);
    }
  }

  /** One scan step with a one-character pattern translates exactly one character. */
  lemma ReplaceCharStep(s: string, c: char, d: char, k: nat)
    requires k < |s|
    ensures ReplaceFrom(s, [c], [d], k)
      == [if s[k] == c then d else s[k]] + ReplaceFrom(s, [c], [d], k + 1)
  {
    assert OccursAt(s, [c], k) <==> s[k] == c by { assert s[k..k + 1] == [s[k]]; }
    if s[k] == c {
      ReplaceMatch(s, [c], [d], k);
    } else {
      ReplaceSkip(s, [c], [d], k);
    }
  }

  /** `s` with every `c` turned into `d`, character by character. */
  function Translate(s: string, c: char, d: char): (r: string)
    ensures |r| == |s|
  {
    seq(|s|, i requires 0 <= i < |s| => if s[i] == c then d else s[i])
  }

  /** Translating a suffix is translating its first character, then the rest. */
  lemma TranslateCons(s: string, c: char, d: char, k: nat)
    requires k < |s|
    ensures Translate(s[k..], c, d) == [if s[k] == c then d else s[k]] + Translate(s[k + 1..], c, d)
  {
  }

  /** A one-character pattern translates the rest of the text character by character. */
  lemma {:induction false} ReplaceCharFrom(s: string, c: char, d: char, k: nat)
    requires k <= |s|
    ensures ReplaceFrom(s, [c], [d], k) == Translate(s[k..], c, d)
    decreases |s| - k
  {
    if k < |s| {
      calc {
        ReplaceFrom(s, [c], [d], k);
        { ReplaceCharStep(s, c, d, k); }
        [if s[k] == c then d else s[k]] + ReplaceFrom(s, [c], [d], k + 1);
        { ReplaceCharFrom(s, c, d, k + 1); }
        [if s[k] == c then d else s[k]] + Translate(s[k + 1..], c, d);
        { TranslateCons(s, c, d, k); }
        Translate(s[k..], c, d);
      }
    }
  }

  /** A one-character pattern is a character-by-character translation. */
  lemma ReplaceChar(s: string, c: char, d: char)
    ensures |ReplaceAll(s, [c], [d])| == |s|
    ensures forall i :: 0 <= i < |s| ==>
      ReplaceAll(s, [c], [d])[i] == (if s[i] == c then d else s[i])
  {
    ReplaceCharFrom(s, c, d, 0);
    assert s[0..] == s;
  }
}
