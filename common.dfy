// Small value helpers shared by both rules engines: an optional value, decimal
// digits, and the `split`/`reduce` string operations the engines use to build
// and take apart move strings such as "e1:c3:a5".

module Common {

  datatype Option<T> = None | Some(value: T)

  predicate IsDigit(c: char) { '0' <= c <= '9' }

  /** The character of a decimal digit. */
  function DigitChar(d: int): (c: char)
    requires 0 <= d <= 9
    ensures IsDigit(c) && c as int - '0' as int == d
  {
    ('0' as int + d) as char
  }

  /** The value of a decimal digit character. */
  function DigitValue(c: char): (d: int)
    requires IsDigit(c)
    ensures 0 <= d <= 9 && DigitChar(d) == c
  {
    c as int - '0' as int
  }

  /** Decimal text of a natural number, most significant digit first. */
  function NatText(n: nat): (s: string)
    ensures |s| >= 1
    ensures forall i :: 0 <= i < |s| ==> IsDigit(s[i])
    ensures n <= 9 <==> |s| == 1
    ensures n <= 9 ==> s == [DigitChar(n)]
  {
    if n < 10 then [DigitChar(n)] else NatText(n / 10) + [DigitChar(n % 10)]
  }

  /** Decimal text of an integer as a string template prints it: a minus sign before negatives. */
  function IntText(n: int): (s: string)
    ensures |s| >= 1
    ensures 0 <= n <= 9 <==> (|s| == 1 && IsDigit(s[0]))
    ensures 0 <= n <= 9 ==> s == [DigitChar(n)]
  {
    if n < 0 then "-" + NatText(-n) else NatText(n)
  }

  /** The value of a decimal text written with the digits of NatText. */
  function NatValue(s: string): nat
    requires forall i :: 0 <= i < |s| ==> IsDigit(s[i])
  {
    if s == [] then 0 else NatValue(s[..|s| - 1]) * 10 + DigitValue(s[|s| - 1])
  }

  /** Reading back the decimal text of a natural number gives that number. */
  lemma {:induction false} NatTextValue(n: nat)
    ensures NatValue(NatText(n)) == n
  {
    if n >= 10 {
      var s := NatText(n);
      assert s[..|s| - 1] == NatText(n / 10);
      NatTextValue(n / 10);
    }
  }

  /**
   * `split(sep)`: the maximal runs between separators, in order; empty runs are
   * kept, so the result always has one part more than `s` has separators.
   */
  function Split(s: string, sep: char): (parts: seq<string>)
    ensures |parts| >= 1
    ensures forall i :: 0 <= i < |parts| ==> sep !in parts[i]
    ensures |parts| == 1 <==> sep !in s
  {
    if s == [] then [[]]
    else
      var rest := Split(s[1..], sep);
      if s[0] == sep then [[]] + rest
      else [[s[0]] + rest[0]] + rest[1..]
  }

  /** `reduce { acc, s -> "$acc$sep$s" }`: the parts joined left to right with the separator. */
  function Join(parts: seq<string>, sep: char): (s: string)
    requires |parts| >= 1
  {
    if |parts| == 1 then parts[0]
    else Join(parts[..|parts| - 1], sep) + [sep] + parts[|parts| - 1]
  }

  lemma {:induction false} SplitNoSeparator(s: string, sep: char)
    requires sep !in s
    ensures Split(s, sep) == [s]
    decreases |s|
  {
    if s != [] {
      SplitNoSeparator(s[1..], sep);
      assert [s[0]] + s[1..] == s;
    }
  }

  lemma {:induction false} SplitAppend(x: string, b: string, sep: char)
    requires sep !in b
    ensures Split(x + [sep] + b, sep) == Split(x, sep) + [b]
    decreases |x|
  {
    if x == [] {
      assert x + [sep] + b == [sep] + b;
      assert ([sep] + b)[1..] == b;
      SplitNoSeparator(b, sep);
    } else {
      assert (x + [sep] + b)[1..] == x[1..] + [sep] + b;
      SplitAppend(x[1..], b, sep);
    }
  }

  /** Splitting a joined list gives the parts back, provided no part holds the separator. */
  lemma {:induction false} SplitJoin(parts: seq<string>, sep: char)
    requires |parts| >= 1
    requires forall i :: 0 <= i < |parts| ==> sep !in parts[i]
    ensures Split(Join(parts, sep), sep) == parts
    decreases |parts|
  {
    if |parts| == 1 {
      SplitNoSeparator(parts[0], sep);
    } else {
      var init := parts[..|parts| - 1];
      SplitJoin(init, sep);
      SplitAppend(Join(init, sep), parts[|parts| - 1], sep);
      assert init + [parts[|parts| - 1]] == parts;
    }
  }

  /** Joining the parts of a split gives the original text. */
  lemma {:induction false} JoinSplit(s: string, sep: char)
    ensures Join(Split(s, sep), sep) == s
    decreases |s|
  {
    if s != [] {
      JoinSplit(s[1..], sep);
      var rest := Split(s[1..], sep);
      if s[0] == sep {
        JoinCons([], rest, sep);
      } else {
        JoinHead([s[0]], rest, sep);
      }
    }
  }

  lemma {:induction false} JoinCons(a: string, rest: seq<string>, sep: char)
    requires |rest| >= 1
    ensures Join([a] + rest, sep) == a + [sep] + Join(rest, sep)
    decreases |rest|
  {
    if |rest| > 1 {
      var init := rest[..|rest| - 1];
      assert ([a] + rest)[..|rest|] == [a] + init;
      JoinCons(a, init, sep);
    } else {
      assert [a] + rest == [a, rest[0]];
    }
  }

  lemma {:induction false} JoinHead(c: string, rest: seq<string>, sep: char)
    requires |rest| >= 1
    ensures Join([c + rest[0]] + rest[1..], sep) == c + Join(rest, sep)
    decreases |rest|
  {
    if |rest| > 1 {
      var init := rest[..|rest| - 1];
      var parts := [c + rest[0]] + rest[1..];
      assert parts[..|parts| - 1] == [c + init[0]] + init[1..];
      assert parts[|parts| - 1] == rest[|rest| - 1];
      JoinHead(c, init, sep);
      assert Join(rest, sep) == Join(init, sep) + [sep] + rest[|rest| - 1];
      assert Join(parts, sep) == (c + Join(init, sep)) + [sep] + rest[|rest| - 1];
    } else {
      assert [c + rest[0]] + rest[1..] == [c + rest[0]];
    }
  }

  /** `filter`: the elements satisfying f, in their original order. */
  function Filter<T(!new)>(s: seq<T>, f: T -> bool): (r: seq<T>)
    ensures |r| <= |s|
    ensures forall x :: x in r <==> x in s && f(x)
  {
    if s == [] then [] else (if f(s[0]) then [s[0]] else []) + Filter(s[1..], f)
  }

  /** `map`: f applied to every element, in order. */
  function Map<A, B>(f: A -> B, s: seq<A>): (r: seq<B>)
    ensures |r| == |s|
    ensures forall i :: 0 <= i < |s| ==> r[i] == f(s[i])
  {
    if s == [] then [] else [f(s[0])] + Map(f, s[1..])
  }

  lemma MapAppend<A, B>(f: A -> B, s: seq<A>, x: A)
    ensures Map(f, s + [x]) == Map(f, s) + [f(x)]
  {
    assert (s + [x])[|s|] == x;
    assert forall i :: 0 <= i < |s| ==> (s + [x])[i] == s[i];
  }

  /** A prefix one element longer. */
  lemma PrefixGrows<T>(s: seq<T>, i: int)
    requires 0 <= i < |s|
    ensures s[..i + 1] == s[..i] + [s[i]]
  {
  }

  /** `takeWhile`: the longest prefix whose elements all satisfy f. */
  function TakeWhile<T>(s: seq<T>, f: T -> bool): (r: seq<T>)
    ensures |r| <= |s| && r == s[..|r|]
    ensures forall i :: 0 <= i < |r| ==> f(r[i])
    ensures |r| < |s| ==> !f(s[|r|])
  {
    if s == [] || !f(s[0]) then [] else [s[0]] + TakeWhile(s[1..], f)
  }

  /** `mapNotNull`: the present values, in their original order. */
  function Somes<T(!new)>(s: seq<Option<T>>): (r: seq<T>)
    ensures |r| <= |s|
    ensures forall x :: x in r <==> Some(x) in s
  {
    if s == [] then [] else (if s[0].Some? then [s[0].value] else []) + Somes(s[1..])
  }

  /** Every part is empty. */
  predicate AllEmpty<T>(parts: seq<seq<T>>)
  {
    forall i :: 0 <= i < |parts| ==> parts[i] == []
  }

  /** The parts one after another (`flatMap` of the identity). */
  function Flatten<T>(parts: seq<seq<T>>): (r: seq<T>)
    ensures r == [] <==> AllEmpty(parts)
  {
    if parts == [] then []
    else
      var rest := Flatten(parts[..|parts| - 1]);
      assert forall i :: 0 <= i < |parts| - 1 ==> parts[..|parts| - 1][i] == parts[i];
      rest + parts[|parts| - 1]
  }

  /** Every element of a part is an element of the whole. */
  lemma {:induction false} FlattenHas<T>(parts: seq<seq<T>>, j: nat, x: T)
    requires j < |parts| && x in parts[j]
    ensures x in Flatten(parts)
  {
    var n := |parts| - 1;
    if j < n {
      assert parts[..n][j] == parts[j];
      FlattenHas(parts[..n], j, x);
    }
  }

  /** Every element of the whole comes from some part. */
  lemma {:induction false} FlattenSource<T>(parts: seq<seq<T>>, x: T) returns (j: nat)
    requires x in Flatten(parts)
    ensures j < |parts| && x in parts[j]
  {
    var n := |parts| - 1;
    if x in Flatten(parts[..n]) {
      j := FlattenSource(parts[..n], x);
      assert parts[..n][j] == parts[j];
    } else {
      j := n;
    }
  }

  /** Part i of a list of parts starts, in the parts laid end to end, where the parts before it end. */
  lemma {:induction false} FlattenAt<T>(parts: seq<seq<T>>, i: nat, j: nat)
    requires i < |parts| && j < |parts[i]|
    ensures |Flatten(parts[..i])| + j < |Flatten(parts)|
    ensures Flatten(parts)[|Flatten(parts[..i])| + j] == parts[i][j]
  {
    var m := |parts| - 1;
    var init := parts[..m];
    assert Flatten(parts) == Flatten(init) + parts[m];
    if i < m {
      assert init[..i] == parts[..i];
      assert init[i] == parts[i];
      FlattenAt(init, i, j);
    } else {
      assert parts[..i] == init;
    }
  }

  /** The first i parts of length n each make i × n elements. */
  lemma {:induction false} FlattenLength<T>(parts: seq<seq<T>>, n: nat, i: nat)
    requires i <= |parts| && forall k :: 0 <= k < |parts| ==> |parts[k]| == n
    ensures |Flatten(parts[..i])| == i * n
  {
    if i > 0 {
      FlattenLength(parts, n, i - 1);
      assert parts[..i][..i - 1] == parts[..i - 1];
      assert |Flatten(parts[..i])| == |Flatten(parts[..i - 1])| + n;
      MulStep(i, n);
    }
  }

  /** One more row of n. */
  lemma MulStep(i: nat, n: nat)
    requires i > 0
    ensures i * n == (i - 1) * n + n
  {
  }

  /** Parts of one length n laid end to end: place i × n + j is place j of part i. */
  lemma FlattenUniform<T>(parts: seq<seq<T>>, n: nat, i: nat, j: nat)
    requires forall k :: 0 <= k < |parts| ==> |parts[k]| == n
    requires i < |parts| && j < n
    ensures i * n + j < |Flatten(parts)| && Flatten(parts)[i * n + j] == parts[i][j]
  {
    FlattenLength(parts, n, i);
    FlattenAt(parts, i, j);
  }

  /** Parts of one length n laid end to end make |parts| × n elements. */
  lemma FlattenUniformLength<T>(parts: seq<seq<T>>, n: nat)
    requires forall k :: 0 <= k < |parts| ==> |parts[k]| == n
    ensures |Flatten(parts)| == |parts| * n
  {
    FlattenLength(parts, n, |parts|);
    assert parts[..|parts|] == parts;
  }

  /** Multiplying by n keeps the order of two naturals. */
  lemma {:induction false} MulMono(a: nat, b: nat, n: nat)
    requires a <= b
    ensures a * n <= b * n
    decreases b - a
  {
    if a < b {
      MulMono(a + 1, b, n);
      MulStep(a + 1, n);
    }
  }
}
