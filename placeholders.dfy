/**
 * The placeholder codec of a scenario-outline step: a header name `h`
 * stands in step text as the token `<h>`, and a row's values are put in
 * place of those tokens.
 */
module Placeholders {
  import opened Wrappers
  import opened RubyString
  import opened OrderedHash

  /** Header (or token) to cell value; a nil value is possible. */
  type Arguments = Hash<string, Option<string>>

  /** `delimited`: the token that stands for header `s` in step text. */
  function Delimited(s: string): (r: string)
    ensures |r| == |s| + 2
    ensures r[0] == '<' && r[|r| - 1] == '>'
    ensures r[1..|r| - 1] == s
  {
    "<" + s + ">"
  }

  /** Strips the first and last character of a token. */
  function Undelimited(t: string): string
    requires |t| >= 2
  {
    t[1..|t| - 1]
  }

  /** Stripping the markers gives the header name back. */
  lemma DelimitedRoundTrip(s: string)
    ensures Undelimited(Delimited(s)) == s
  {
  }

  /** Distinct headers have distinct tokens. */
  lemma DelimitedInjective(s: string, s': string)
    requires Delimited(s) == Delimited(s')
    ensures s == s'
  {
    DelimitedRoundTrip(s);
    DelimitedRoundTrip(s');
  }

  /** The token of one header never occurs in the token of a different header of the same length. */
  lemma {:induction false} OtherTokenAbsent(h: string, h': string)
    requires h != h' && |h| == |h'|
    ensures !Contains(Delimited(h), Delimited(h'))
  {
    var t, t' := Delimited(h), Delimited(h');
    forall j | 0 <= j <= |t| ensures !OccursAt(t, t', j) {
    }
  }

  /** A token starting with `<` cannot occur in a text without `<`. */
  lemma TokenAbsent(text: string, token: string)
    requires forall i :: 0 <= i < |text| ==> text[i] != '<'
    requires |token| > 0 && token[0] == '<'
    ensures !Contains(text, token)
  {
    forall j | 0 <= j <= |text| ensures !OccursAt(text, token, j) {
      if j < |text| { NoOccurrenceAt(text, token, j); }
    }
  }

  /** A token written into a text occurs in it. */
  lemma TokenPresent(pre: string, token: string, post: string)
    ensures Contains(pre + token + post, token)
  {
    var text := pre + token + post;
    assert OccursAt(text, token, |pre|) by {
      assert text[|pre|..|pre| + |token|] == token;
    }
  }

  /**
   * `delimit_argument_names`: a fold that stores each header's token with the
   * header's value into a new hash, in the hash's order.
   */
  function DelimitArgumentNames(h: Arguments): (r: Arguments)
    ensures KeysDistinct(r)
    ensures KeysDistinct(h) ==>
      |r| == |h| && forall i :: 0 <= i < |h| ==> r[i] == (Delimited(h[i].0), h[i].1)
  {
    var ps := seq(|h|, i requires 0 <= i < |h| => (Delimited(h[i].0), h[i].1));
    if KeysDistinct(h) then
      assert KeysDistinct(ps) by {
        forall i, j | 0 <= i < j < |ps| ensures ps[i].0 != ps[j].0 {
          if ps[i].0 == ps[j].0 { DelimitedInjective(h[i].0, h[j].0); }
        }
      }
      FromDistinctPairs(ps);
      FromPairs(ps)
    else
      FromPairs(ps)
  }

  /**
   * The text after applying each token/value pair of `args` in turn, each
   * one replacing every occurrence of its token in the text produced so far;
   * a nil value deletes the token.
   */
  function SubstituteAll(text: string, args: Arguments): string
    decreases args
  {
    if args == [] then text
    else SubstituteAll(ReplaceAll(text, args[0].0, args[0].1.GetOr("")), args[1..])
  }

  /** `replace_name_arguments`: the loop that rewrites the name pair by pair. */
  method ReplaceNameArguments(name: string, argumentHash: Arguments) returns (replaced: string)
    ensures replaced == SubstituteAll(name, argumentHash)
  {
    replaced := name;
    var i := 0;
    while i < |argumentHash|
      invariant 0 <= i <= |argumentHash|
      invariant SubstituteAll(replaced, argumentHash[i..]) == SubstituteAll(name, argumentHash)
    {
      var (key, value) := argumentHash[i];
      assert argumentHash[i..][1..] == argumentHash[i + 1..];
      replaced := ReplaceAll(replaced, key, value.GetOr(""));
      i := i + 1;
    }
  }

  /** With no pair, or no token that occurs in the text, the text comes back unchanged. */
  lemma {:induction false} SubstituteUnchanged(text: string, args: Arguments)
    requires forall i :: 0 <= i < |args| ==> |args[i].0| > 0 && !Contains(text, args[i].0)
    ensures SubstituteAll(text, args) == text
  {
    if args != [] {
      ReplaceAbsent(text, args[0].0, args[0].1.GetOr(""));
      assert forall i :: 1 <= i < |args| ==> args[1..][i - 1] == args[i];
      SubstituteUnchanged(text, args[1..]);
    }
  }

  /** Pairs are applied one after another: a hash split in two is applied part by part. */
  lemma {:induction false} SubstituteSequential(text: string, a: Arguments, b: Arguments)
    ensures SubstituteAll(text, a + b) == SubstituteAll(SubstituteAll(text, a), b)
    decreases a
  {
    if a == [] {
      assert a + b == b;
    } else {
      assert (a + b)[0] == a[0];
      assert (a + b)[1..] == a[1..] + b;
      SubstituteSequential(ReplaceAll(text, a[0].0, a[0].1.GetOr("")), a[1..], b);
    }
  }

  /** A one-pair hash is a single `gsub`, with nil read as the empty string. */
  lemma SubstituteSingle(text: string, token: string, value: Option<string>)
    ensures SubstituteAll(text, [(token, value)]) == ReplaceAll(text, token, value.GetOr(""))
  {
    var args: Arguments := [(token, value)];
    assert args[1..] == [];
  }

  /**
   * A nil value deletes its token: the text up to the first occurrence is
   * kept, the occurrence itself is dropped, and the text gets shorter by at
   * least the token's length; a token that does not occur changes nothing.
   */
  lemma NilValueDeletes(text: string, token: string)
    requires |token| > 0
    ensures Contains(text, token) ==> var i := Index(text, token).value;
      SubstituteAll(text, [(token, None)]) == text[..i] + ReplaceFrom(text, token, "", i + |token|)
    ensures Contains(text, token) ==> |SubstituteAll(text, [(token, None)])| <= |text| - |token|
    ensures !Contains(text, token) ==> SubstituteAll(text, [(token, None)]) == text
  {
    SubstituteSingle(text, token, None);
    DeleteShrinks(text, token);
    if Contains(text, token) {
      ReplaceAtFirst(text, token, "");
      assert "" + ReplaceFrom(text, token, "", Index(text, token).value + |token|)
        == ReplaceFrom(text, token, "", Index(text, token).value + |token|);
    } else {
      ReplaceAbsent(text, token, "");
    }
  }

  /** The documented example: `count => 5` in "I have <count> cucumbers". */
  lemma CucumberExample()
    ensures SubstituteAll("I have <count> cucumbers", DelimitArgumentNames([("count", Some("5"))]))
      == "I have 5 cucumbers"
  {
    var h: Arguments := [("count", Some("5"))];
    assert KeysDistinct(h);
    assert Delimited("count") == "<count>";
    assert DelimitArgumentNames(h) == [("<count>", Some("5"))];
    SubstituteSingle("I have <count> cucumbers", "<count>", Some("5"));
    CountTokenReplaced();
  }

  lemma CountTokenReplaced()
    ensures ReplaceAll("I have <count> cucumbers", "<count>", "5") == "I have 5 cucumbers"
  {
    var pre, token, post := "I have ", "<count>", " cucumbers";
    assert pre + token + post == "I have <count> cucumbers";
    assert pre + "5" + post == "I have 5 cucumbers";
    assert '<' !in pre && '<' !in post;
    ReplaceSoleToken(pre, token, post, "5");
  }

  /** Up to a token whose first character is not in `pre`, the text `pre` is copied. */
  lemma SoleTokenPrefix(pre: string, token: string, post: string, rep: string)
    requires |token| > 0 && token[0] !in pre
    ensures var text := pre + token + post;
      ReplaceFrom(text, token, rep, 0) == pre + (rep + ReplaceFrom(text, token, rep, |pre| + |token|))
  {
    var text := pre + token + post;
    var n := |pre|;
    var after := rep + ReplaceFrom(text, token, rep, n + |token|);
    assert ReplaceFrom(text, token, rep, 0) == text[0..n] + after by {
      assert OccursAt(text, token, n) by { assert text[n..n + |token|] == token; }
      forall j | 0 <= j < n ensures !OccursAt(text, token, j) {
        assert text[j] == pre[j];
        NoOccurrenceAt(text, token, j);
      }
      ReplaceAtFirstFrom(text, token, rep, 0, n);
    }
    assert text[0..n] == pre;
  }

  /** After the token, a text `post` without the token's first character is copied. */
  lemma SoleTokenSuffix(pre: string, token: string, post: string, rep: string)
    requires |token| > 0 && token[0] !in post
    ensures var text := pre + token + post;
      ReplaceFrom(text, token, rep, |pre| + |token|) == post
  {
    var text := pre + token + post;
    var m := |pre| + |token|;
    forall j | m <= j <= |text| ensures !OccursAt(text, token, j) {
      if j < |text| {
        assert text[j] == post[j - m];
        NoOccurrenceAt(text, token, j);
      }
    }
    ReplaceAbsentFrom(text, token, rep, m);
    assert text[m..] == post;
  }

  /** A token whose first character occurs nowhere else in the text is replaced exactly once. */
  lemma ReplaceSoleToken(pre: string, token: string, post: string, rep: string)
    requires |token| > 0 && token[0] !in pre && token[0] !in post
    ensures ReplaceAll(pre + token + post, token, rep) == pre + rep + post
  {
    SoleTokenPrefix(pre, token, post, rep);
    SoleTokenSuffix(pre, token, post, rep);
  }

  /**
   * Order matters when a value holds another token: applied in hash order,
   * `a => "<b>"` then `b => "x"` turns "<a>" into "x"; the reverse order
   * leaves "<b>".
   */
  lemma ChainedSubstitution()
    ensures SubstituteAll("<a>", [("<a>", Some("<b>")), ("<b>", Some("x"))]) == "x"
    ensures SubstituteAll("<a>", [("<b>", Some("x")), ("<a>", Some("<b>"))]) == "<b>"
  {
    var ab, bx := ("<a>", Some("<b>")), ("<b>", Some("x"));
    SubstituteSequential("<a>", [ab], [bx]);
    SubstituteSequential("<a>", [bx], [ab]);
    assert [ab] + [bx] == [ab, bx];
    assert [bx] + [ab] == [bx, ab];
    assert ReplaceAll("<a>", "<a>", "<b>") == "<b>" by {
      assert "" + "<a>" + "" == "<a>";
      assert "" + "<b>" + "" == "<b>";
      ReplaceSoleToken("", "<a>", "", "<b>");
    }
    assert ReplaceAll("<b>", "<b>", "x") == "x" by {
      assert "" + "<b>" + "" == "<b>";
      assert "" + "x" + "" == "x";
      ReplaceSoleToken("", "<b>", "", "x");
    }
    assert ReplaceAll("<a>", "<b>", "x") == "<a>" by {
      forall j | 0 <= j <= 3 ensures !OccursAt("<a>", "<b>", j) {
        if j == 0 { assert "<a>"[0..3][1] != "<b>"[1]; }
      }
      ReplaceAbsentFrom("<a>", "<b>", "x", 0);
      assert "<a>"[0..] == "<a>";
    }
    SubstituteSingle("<a>", "<a>", Some("<b>"));
    SubstituteSingle("<b>", "<b>", Some("x"));
    SubstituteSingle("<a>", "<b>", Some("x"));
    SubstituteSingle("<a>", "<a>", Some("<b>"));
  }
}
