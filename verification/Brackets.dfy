// Matching brackets in a token list, as the linter searches for them.
module Brackets {
  import opened Infix

  // find_close_paren from position k on, at some depth; -1 when there is no partner.
  function CloseFrom<A>(ts: seq<Tok<A>>, k: nat, depth: int): (r: int)
    requires k <= |ts|
    ensures r == -1 || (k <= r < |ts| && ts[r] == RP)
    decreases |ts| - k
  {
    if k == |ts| then -1
    else if ts[k] == LP then CloseFrom(ts, k + 1, depth + 1)
    else if ts[k] == RP then (if depth - 1 == 0 then k else CloseFrom(ts, k + 1, depth - 1))
    else CloseFrom(ts, k + 1, depth)
  }

  function Close<A>(ts: seq<Tok<A>>, open: nat): (r: int)
    requires open <= |ts|
    ensures r == -1 || (open <= r < |ts| && ts[r] == RP)
  {
    CloseFrom(ts, open, 0)
  }

  // find_open_paren: from position k - 1 down.
  function OpenFrom<A>(ts: seq<Tok<A>>, k: nat, depth: int): (r: int)
    requires k <= |ts|
    ensures r == -1 || (0 <= r < k && ts[r] == LP)
  {
    if k == 0 then -1
    else if ts[k - 1] == RP then OpenFrom(ts, k - 1, depth + 1)
    else if ts[k - 1] == LP then (if depth - 1 == 0 then k - 1 else OpenFrom(ts, k - 1, depth - 1))
    else OpenFrom(ts, k - 1, depth)
  }

  function Open<A>(ts: seq<Tok<A>>, close: nat): (r: int)
    requires close < |ts|
    ensures r == -1 || (0 <= r <= close && ts[r] == LP)
  {
    OpenFrom(ts, close + 1, 0)
  }

  // Opening brackets less closing ones.
  function Weight<A>(ts: seq<Tok<A>>): int {
    if ts == [] then 0
    else Weight(ts[..|ts| - 1]) + (match ts[|ts| - 1] case LP => 1 case RP => -1 case _ => 0)
  }

  // A span whose brackets match, seen from the left: every proper prefix leaves one open.
  ghost predicate Matched<A>(ts: seq<Tok<A>>, i: nat, j: nat) {
    && i <= j < |ts| && Weight(ts[i..j + 1]) == 0
    && forall k | i < k <= j :: Weight(ts[i..k]) > 0
  }

  lemma WeightNext<A>(ts: seq<Tok<A>>, i: nat, k: nat)
    requires i <= k < |ts|
    ensures Weight(ts[i..k + 1]) == Weight(ts[i..k]) + (match ts[k] case LP => 1 case RP => -1 case _ => 0)
  {
    assert ts[i..k + 1][..k - i] == ts[i..k];
  }

  lemma {:induction false} WeightSplit<A>(ts: seq<Tok<A>>, i: nat, k: nat, j: nat)
    requires i <= k <= j <= |ts|
    ensures Weight(ts[i..j]) == Weight(ts[i..k]) + Weight(ts[k..j])
    decreases j
  {
    if k == j {
      assert ts[k..j] == [];
    } else {
      WeightNext(ts, i, j - 1);
      WeightNext(ts, k, j - 1);
      WeightSplit(ts, i, k, j - 1);
    }
  }

  // The forward search stops exactly where the brackets first balance.
  lemma {:induction false} CloseMatches<A>(ts: seq<Tok<A>>, i: nat, k: nat, j: nat)
    requires i < k <= |ts| && ts[i] == LP && j < |ts| && forall m | i < m <= k :: Weight(ts[i..m]) > 0
    ensures CloseFrom(ts, k, Weight(ts[i..k])) == j <==> k <= j && Matched(ts, i, j)
    decreases |ts| - k
  {
    if k < |ts| {
      WeightNext(ts, i, k);
      if Weight(ts[i..k + 1]) > 0 {
        CloseMatches(ts, i, k + 1, j);
      } else {
        assert ts[k] == RP;
      }
    }
  }

  // The same span seen from the right: every proper suffix leaves one closing bracket over.
  ghost predicate Rights<A>(ts: seq<Tok<A>>, k: nat, n: nat)
    requires n <= |ts|
  {
    forall m | k <= m < n :: Weight(ts[m..n]) < 0
  }

  // The backward search from n stops exactly where the span up to n first balances.
  lemma {:induction false} OpenMatches<A>(ts: seq<Tok<A>>, i: nat, k: nat, n: nat)
    requires k < n <= |ts| && i < |ts| && Rights(ts, k, n)
    ensures OpenFrom(ts, k, -Weight(ts[k..n])) == i <==> i < k && Weight(ts[i..n]) == 0 && Rights(ts, i + 1, n)
  {
    hide CloseFrom;
    if k > 0 {
      WeightSplit(ts, k - 1, k, n);
      WeightNext(ts, k - 1, k - 1);
      assert ts[k - 1..k - 1] == [];
      if Weight(ts[k - 1..n]) < 0 {
        OpenMatches(ts, i, k - 1, n);
      } else {
        assert ts[k - 1] == LP;
        assert i < k - 1 ==> !Rights(ts, i + 1, n);
      }
    }
  }

  lemma OneWeight<A>(ts: seq<Tok<A>>, i: nat)
    requires i < |ts|
    ensures Weight(ts[i..i + 1]) == match ts[i] case LP => 1 case RP => -1 case _ => 0
  {
    WeightNext(ts, i, i);
    assert ts[i..i] == [];
  }

  lemma BothSides<A>(ts: seq<Tok<A>>, i: nat, j: nat)
    requires i <= j < |ts| && Weight(ts[i..j + 1]) == 0
    ensures Matched(ts, i, j) <==> Rights(ts, i + 1, j + 1)
  {
    var n := j + 1;
    if Matched(ts, i, j) {
      forall m | i + 1 <= m < n
        ensures Weight(ts[m..n]) < 0
      {
        WeightSplit(ts, i, m, n);
      }
    }
    if Rights(ts, i + 1, n) {
      forall m | i < m <= j
        ensures Weight(ts[i..m]) > 0
      {
        WeightSplit(ts, i, m, n);
        assert Weight(ts[m..n]) < 0;
      }
    }
  }

  // find_open_paren and find_close_paren undo each other on matched brackets.
  lemma OpenUndoesClose<A>(ts: seq<Tok<A>>, i: nat, j: nat)
    requires i < |ts| && j < |ts| && ts[i] == LP && ts[j] == RP
    ensures Close(ts, i) == j <==> Open(ts, j) == i
  {
    OneWeight(ts, i);
    OneWeight(ts, j);
    CloseMatches(ts, i, i + 1, j);
    OpenMatches(ts, i, j, j + 1);
    if i < j && Weight(ts[i..j + 1]) == 0 { BothSides(ts, i, j); }
    assert Close(ts, i) == CloseFrom(ts, i + 1, 1) && Open(ts, j) == OpenFrom(ts, j, 1);
    hide Weight;
  }
}
