/** String operations the tree printer is built from: Go's `strings.Join`,
    and a count of parentheses used to state that printed output is balanced. */
module Text {

  /** `strings.Join`: the parts in order, with `sep` between each pair of neighbours. */
  function Join(parts: seq<string>, sep: string): string
  {
    if parts == [] then ""
    else if |parts| == 1 then parts[0]
    else parts[0] + sep + Join(parts[1..], sep)
  }

  /** Where `parts[i]` begins inside `Join(parts, sep)`. */
  function JoinOffset(parts: seq<string>, sep: string, i: nat): nat
    requires i < |parts|
  {
    if i == 0 then 0 else |parts[0]| + |sep| + JoinOffset(parts[1..], sep, i - 1)
  }

  /** Every part occurs unchanged in the joined string, at its offset, and the
      separator sits between it and the next part. */
  lemma {:induction false} JoinSlices(parts: seq<string>, sep: string, i: nat)
    requires i < |parts|
    ensures JoinOffset(parts, sep, i) + |parts[i]| <= |Join(parts, sep)|
    ensures Join(parts, sep)[JoinOffset(parts, sep, i)..JoinOffset(parts, sep, i) + |parts[i]|] == parts[i]
    ensures i + 1 < |parts| ==>
              JoinOffset(parts, sep, i + 1) == JoinOffset(parts, sep, i) + |parts[i]| + |sep| &&
              JoinOffset(parts, sep, i + 1) <= |Join(parts, sep)| &&
              Join(parts, sep)[JoinOffset(parts, sep, i) + |parts[i]|..JoinOffset(parts, sep, i + 1)] == sep
    decreases i
  {
    if |parts| == 1 {
      assert parts[0][0..|parts[0]|] == parts[0];
    } else {
      var head := parts[0] + sep;
      var rest := Join(parts[1..], sep);
      assert Join(parts, sep) == head + rest;
      if i == 0 {
        SliceOfLeft(head, rest, 0, |parts[0]|);
        SliceOfLeft(parts[0], sep, 0, |parts[0]|);
        assert parts[0][0..|parts[0]|] == parts[0];
        SliceOfLeft(head, rest, |parts[0]|, |head|);
        SliceOfRight(parts[0], sep, |parts[0]|, |head|);
        assert sep[0..|sep|] == sep;
      } else {
        JoinSlices(parts[1..], sep, i - 1);
        var off := JoinOffset(parts[1..], sep, i - 1);
        assert parts[1..][i - 1] == parts[i];
        SliceOfRight(head, rest, |head| + off, |head| + off + |parts[i]|);
        if i + 1 < |parts| {
          SliceOfRight(head, rest, |head| + off + |parts[i]|, |head| + off + |parts[i]| + |sep|);
        }
      }
    }
  }

  /** The joined string ends with its last part: nothing follows it. */
  lemma {:induction false} JoinLength(parts: seq<string>, sep: string)
    requires parts != []
    ensures |Join(parts, sep)| == JoinOffset(parts, sep, |parts| - 1) + |parts[|parts| - 1]|
  {
    if |parts| > 1 {
      JoinLength(parts[1..], sep);
      assert parts[1..][|parts| - 2] == parts[|parts| - 1];
    }
  }

  /** A slice that lies inside the left operand of a concatenation. */
  lemma SliceOfLeft(a: string, b: string, lo: nat, hi: nat)
    requires lo <= hi <= |a|
    ensures (a + b)[lo..hi] == a[lo..hi]
  {
  }

  /** A slice that lies inside the right operand of a concatenation. */
  lemma SliceOfRight(a: string, b: string, lo: nat, hi: nat)
    requires |a| <= lo <= hi <= |a| + |b|
    ensures (a + b)[lo..hi] == b[lo - |a|..hi - |a|]
  {
  }

  /** Parts appear in the joined string in the order of the list, each followed
      by at least one separator before any later part begins. */
  lemma {:induction false} JoinOffsetsOrdered(parts: seq<string>, sep: string, i: nat, j: nat)
    requires i < j < |parts|
    ensures JoinOffset(parts, sep, i) + |parts[i]| + |sep| <= JoinOffset(parts, sep, j)
    decreases j - i
  {
    JoinSlices(parts, sep, i);
    if i + 1 < j {
      JoinOffsetsOrdered(parts, sep, i + 1, j);
    }
  }

  /** Contribution of one character to the nesting depth. */
  function Delta(c: char): int
  {
    if c == '(' then 1 else if c == ')' then -1 else 0
  }

  /** Nesting depth reached after reading `s`: opening minus closing parentheses. */
  function Net(s: string): int
  {
    if s == [] then 0 else Delta(s[0]) + Net(s[1..])
  }

  /** Number of opening parentheses in `s`. */
  function Opens(s: string): nat
  {
    if s == [] then 0 else (if s[0] == '(' then 1 else 0) + Opens(s[1..])
  }

  function Sum(xs: seq<nat>): nat
  {
    if xs == [] then 0 else xs[0] + Sum(xs[1..])
  }

  /** The opening-parenthesis count of each part. */
  function OpensEach(parts: seq<string>): (r: seq<nat>)
    ensures |r| == |parts|
  {
    seq(|parts|, i requires 0 <= i < |parts| => Opens(parts[i]))
  }

  predicate ParenFree(s: string)
  {
    forall i :: 0 <= i < |s| ==> s[i] != '(' && s[i] != ')'
  }

  /** No prefix closes more parentheses than it opens, and the whole closes all it opens. */
  predicate Balanced(s: string)
  {
    Net(s) == 0 && forall k :: 0 <= k <= |s| ==> Net(s[..k]) >= 0
  }

  /** `s` is one parenthesised group: its first `(` is closed by its last `)` and not before. */
  predicate Enclosed(s: string)
  {
    2 <= |s| && s[0] == '(' && s[|s| - 1] == ')' && Balanced(s) &&
    forall k :: 1 <= k < |s| ==> Net(s[..k]) >= 1
  }

  lemma {:induction false} NetConcat(a: string, b: string)
    ensures Net(a + b) == Net(a) + Net(b)
    ensures Opens(a + b) == Opens(a) + Opens(b)
  {
    if a == [] {
      assert a + b == b;
    } else {
      assert (a + b)[1..] == a[1..] + b;
      NetConcat(a[1..], b);
    }
  }

  lemma {:induction false} ParenFreeZero(s: string)
    requires ParenFree(s)
    ensures Net(s) == 0 && Opens(s) == 0
  {
    if s != [] {
      assert forall i :: 0 <= i < |s[1..]| ==> s[1..][i] == s[i + 1];
      ParenFreeZero(s[1..]);
    }
  }

  /** Text without parentheses is balanced and opens nothing. */
  lemma ParenFreeBalanced(s: string)
    requires ParenFree(s)
    ensures Balanced(s) && Opens(s) == 0
  {
    ParenFreeZero(s);
    forall k | 0 <= k <= |s|
      ensures Net(s[..k]) >= 0
    {
      assert forall i :: 0 <= i < k ==> s[..k][i] == s[i];
      ParenFreeZero(s[..k]);
    }
  }

  /** Balanced text stays balanced when concatenated. */
  lemma BalancedConcat(a: string, b: string)
    requires Balanced(a) && Balanced(b)
    ensures Balanced(a + b)
    ensures Opens(a + b) == Opens(a) + Opens(b)
  {
    NetConcat(a, b);
    forall k | 0 <= k <= |a + b|
      ensures Net((a + b)[..k]) >= 0
    {
      if k <= |a| {
        assert (a + b)[..k] == a[..k];
      } else {
        assert (a + b)[..k] == a + b[..k - |a|];
        NetConcat(a, b[..k - |a|]);
      }
    }
  }

  /** Wrapping balanced text in one pair of parentheses gives one enclosed
      group with exactly one more opening parenthesis. */
  lemma Wrap(s: string)
    requires Balanced(s)
    ensures Enclosed("(" + s + ")")
    ensures Opens("(" + s + ")") == Opens(s) + 1
  {
    var w := "(" + s + ")";
    NetConcat("(", s);
    NetConcat("(" + s, ")");
    assert Net("(") == 1 && Net(")") == -1 && Opens("(") == 1 && Opens(")") == 0;
    forall k | 0 <= k <= |w|
      ensures Net(w[..k]) >= 0
      ensures 1 <= k < |w| ==> Net(w[..k]) >= 1
    {
      if k == 0 {
        assert w[..k] == [];
      } else if k < |w| {
        assert w[..k] == "(" + s[..k - 1];
        NetConcat("(", s[..k - 1]);
      } else {
        assert w[..k] == w;
      }
    }
  }

  /** Joining balanced parts with a separator free of parentheses is balanced,
      and opens exactly as many parentheses as the parts do together. */
  lemma {:induction false} JoinBalanced(parts: seq<string>, sep: string)
    requires ParenFree(sep)
    requires forall i :: 0 <= i < |parts| ==> Balanced(parts[i])
    ensures Balanced(Join(parts, sep))
    ensures Opens(Join(parts, sep)) == Sum(OpensEach(parts))
  {
    if parts == [] {
      ParenFreeBalanced("");
    } else if |parts| == 1 {
      assert OpensEach(parts)[1..] == [];
    } else {
      JoinBalanced(parts[1..], sep);
      ParenFreeBalanced(sep);
      BalancedConcat(parts[0], sep);
      BalancedConcat(parts[0] + sep, Join(parts[1..], sep));
      assert OpensEach(parts)[1..] == OpensEach(parts[1..]);
    }
  }

  lemma Assoc(a: string, b: string, c: string)
    ensures a + (b + c) == a + b + c
  {
  }
}
