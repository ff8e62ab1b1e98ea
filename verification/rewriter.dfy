/** The stylesheet rewrite inside `saveFiles`: for each font entry in list
    order, `css = css.replace(inputText, replacement)` (main.js:275,
    main.js:297). A string pattern replaces only its first occurrence. */
module Rewriter {
  import opened Strings

  /** Apply the `(inputText, replacement)` pairs one after the other. */
  function Rewrite(css: string, pairs: seq<(string, string)>): string
    decreases |pairs|
  {
    if |pairs| == 0 then css
    else Rewrite(ReplaceFirst(css, pairs[0].0, pairs[0].1), pairs[1..])
  }

  /** Rewriting with `a` and then with `b` is rewriting with `a + b`. */
  lemma {:induction false} RewriteAppend(css: string, a: seq<(string, string)>, b: seq<(string, string)>)
    ensures Rewrite(css, a + b) == Rewrite(Rewrite(css, a), b)
    decreases |a|
  {
    if |a| > 0 {
      assert (a + b)[1..] == a[1..] + b;
      RewriteAppend(ReplaceFirst(css, a[0].0, a[0].1), a[1..], b);
    } else {
      assert a + b == b;
    }
  }

  /** Pairs whose input text never occurs leave the stylesheet as it is. */
  lemma {:induction false} RewriteWithoutOccurrences(css: string, pairs: seq<(string, string)>)
    requires forall k :: 0 <= k < |pairs| ==> !Occurs(css, pairs[k].0)
    ensures Rewrite(css, pairs) == css
    decreases |pairs|
  {
    if |pairs| > 0 {
      assert ReplaceFirst(css, pairs[0].0, pairs[0].1) == css;
      assert forall k :: 0 <= k < |pairs[1..]| ==> pairs[1..][k] == pairs[k + 1];
      RewriteWithoutOccurrences(css, pairs[1..]);
    }
  }

  // ---------------------------------------------------------------------------
  // The rewrite as a plan: token slots in a fixed layout

  /** `gaps[0] + mids[0] + gaps[1] + ... + mids[n-1] + gaps[n]`. */
  function Layout(gaps: seq<string>, mids: seq<string>): string
    requires |gaps| == |mids| + 1
    decreases |mids|
  {
    if |mids| == 0 then gaps[0] else gaps[0] + mids[0] + Layout(gaps[1..], mids[1..])
  }

  function Zip(tokens: seq<string>, outputs: seq<string>): (r: seq<(string, string)>)
    requires |tokens| == |outputs|
    ensures |r| == |tokens|
    ensures forall k :: 0 <= k < |r| ==> r[k] == (tokens[k], outputs[k])
  {
    seq(|tokens|, k requires 0 <= k < |tokens| => (tokens[k], outputs[k]))
  }

  /** When its turn comes, each token's first occurrence in the text (with
      `done` already rewritten before it) is its own slot. */
  ghost predicate InTurn(done: string, gaps: seq<string>, tokens: seq<string>, outputs: seq<string>)
    requires |gaps| == |tokens| + 1 && |tokens| == |outputs|
    decreases |tokens|
  {
    |tokens| > 0 ==>
      && (forall j: nat :: j < |done + gaps[0]| ==>
            !OccursAt(done + gaps[0] + tokens[0] + Layout(gaps[1..], tokens[1..]), tokens[0], j))
      && InTurn(done + gaps[0] + outputs[0], gaps[1..], tokens[1..], outputs[1..])
  }

  /** If every token is found in its own slot when its turn comes, the rewrite
      puts each replacement exactly in the slot of its token and changes
      nothing else: the gaps, including text identical to a later token, stay
      where they are. */
  lemma {:induction false} RewriteInPlace(done: string, gaps: seq<string>, tokens: seq<string>, outputs: seq<string>)
    requires |gaps| == |tokens| + 1 && |tokens| == |outputs|
    requires forall k :: 0 <= k < |outputs| ==> NoDollar(outputs[k])
    requires InTurn(done, gaps, tokens, outputs)
    ensures Rewrite(done + Layout(gaps, tokens), Zip(tokens, outputs)) == done + Layout(gaps, outputs)
    decreases |tokens|
  {
    if |tokens| > 0 {
      var a := done + gaps[0];
      var b := Layout(gaps[1..], tokens[1..]);
      assert done + Layout(gaps, tokens) == a + tokens[0] + b;
      ReplaceFirstSplices(a, tokens[0], b, outputs[0]);
      var pairs := Zip(tokens, outputs);
      assert pairs[1..] == Zip(tokens[1..], outputs[1..]);
      RewriteInPlace(a + outputs[0], gaps[1..], tokens[1..], outputs[1..]);
      assert a + outputs[0] + b == (a + outputs[0]) + Layout(gaps[1..], tokens[1..]);
      assert done + Layout(gaps, outputs) == a + outputs[0] + Layout(gaps[1..], outputs[1..]);
    }
  }
}
