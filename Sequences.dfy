/** The array operations the directory generator chains together:
    `filter`, `join` and `sort` with a string comparator. */
module Sequences {
  import opened Text

  /** `s.filter(keep)`: the elements that pass, each with its multiplicity in
      `s`. */
  function Filter(s: seq<string>, keep: string -> bool): (r: seq<string>)
    ensures |r| <= |s|
    ensures forall x :: multiset(r)[x] == if keep(x) then multiset(s)[x] else 0
  {
    if s == [] then []
    else
      assert s == [s[0]] + s[1..];
      (if keep(s[0]) then [s[0]] else []) + Filter(s[1..], keep)
  }

  /** `items.join(sep)`. */
  function Join(items: seq<string>, sep: string): (r: string)
    ensures items == [] ==> r == ""
    ensures |items| == 1 ==> r == items[0]
  {
    if |items| == 0 then ""
    else if |items| == 1 then items[0]
    else items[0] + sep + Join(items[1..], sep)
  }

  /** Where `items[i]` starts in `Join(items, sep)`: the lengths of the items
      before it, each followed by one separator. */
  function Offset(items: seq<string>, sep: string, i: nat): nat
    requires i <= |items|
  {
    if i == 0 then 0 else |items[0]| + |sep| + Offset(items[1..], sep, i - 1)
  }

  /** Slicing past a prefix `h` slices what follows it. */
  lemma SliceAfterPrefix(h: string, s: string, x: nat, y: nat)
    requires x <= y <= |s|
    ensures (h + s)[|h| + x..|h| + y] == s[x..y]
  {}

  /** Consecutive items start one item and one separator apart. */
  lemma {:induction false} OffsetStep(items: seq<string>, sep: string, i: nat)
    requires i < |items|
    ensures Offset(items, sep, i + 1) == Offset(items, sep, i) + |items[i]| + |sep|
    decreases i
  {
    if i > 0 {
      OffsetStep(items[1..], sep, i - 1);
    }
  }

  /** The joined text ends where the last item ends. */
  lemma {:induction false} JoinLength(items: seq<string>, sep: string)
    requires |items| > 0
    ensures |Join(items, sep)| == Offset(items, sep, |items| - 1) + |items[|items| - 1]|
    decreases |items|
  {
    if |items| > 1 {
      JoinLength(items[1..], sep);
    }
  }

  /** Each item sits in the joined text at its offset. */
  lemma {:induction false} JoinAt(items: seq<string>, sep: string, i: nat)
    requires i < |items|
    ensures Offset(items, sep, i) + |items[i]| <= |Join(items, sep)|
    ensures Join(items, sep)[Offset(items, sep, i)..Offset(items, sep, i) + |items[i]|] == items[i]
    decreases |items|
  {
    if |items| == 1 {
      assert Join(items, sep) == items[0];
    } else {
      var rest := Join(items[1..], sep);
      var head := items[0] + sep;
      assert Join(items, sep) == head + rest;
      if i == 0 {
        assert (head + rest)[..|items[0]|] == items[0];
      } else {
        var o := Offset(items[1..], sep, i - 1);
        assert Offset(items, sep, i) == |head| + o;
        assert items[1..][i - 1] == items[i];
        JoinAt(items[1..], sep, i - 1);
        SliceAfterPrefix(head, rest, o, o + |items[i]|);
      }
    }
  }

  /** Between two neighbouring items stands exactly one separator. */
  lemma {:induction false} JoinSeparatorAt(items: seq<string>, sep: string, i: nat)
    requires i + 1 < |items|
    ensures Offset(items, sep, i + 1) == Offset(items, sep, i) + |items[i]| + |sep|
    ensures Offset(items, sep, i + 1) <= |Join(items, sep)|
    ensures Join(items, sep)[Offset(items, sep, i) + |items[i]|..Offset(items, sep, i + 1)] == sep
    decreases |items|
  {
    OffsetStep(items, sep, i);
    JoinAt(items, sep, i + 1);
    var rest := Join(items[1..], sep);
    var head := items[0] + sep;
    assert Join(items, sep) == head + rest;
    if i > 0 {
      JoinSeparatorAt(items[1..], sep, i - 1);
      OffsetStep(items[1..], sep, i - 1);
      var o := Offset(items[1..], sep, i - 1);
      SliceAfterPrefix(head, rest, o + |items[i]|, o + |items[i]| + |sep|);
    }
  }

  /** A character that occurs in no item and not in the separator does not
      occur in the joined text. */
  lemma {:induction false} JoinAvoids(items: seq<string>, sep: string, c: char)
    requires forall i :: 0 <= i < |items| ==> c !in items[i]
    requires c !in sep
    ensures c !in Join(items, sep)
    decreases |items|
  {
    if |items| > 1 {
      JoinAvoids(items[1..], sep, c);
    }
  }

  /** Ascending under the string comparison. */
  predicate Sorted(s: seq<string>)
  {
    forall i, j :: 0 <= i < j < |s| ==> LexLessEq(s[i], s[j])
  }

  /** Insertion of one name into a sorted sequence. */
  function Insert(x: string, s: seq<string>): (r: seq<string>)
    requires Sorted(s)
    ensures Sorted(r)
    ensures multiset(r) == multiset(s) + multiset{x}
    decreases |s|
  {
    if s == [] then [x]
    else if LexLessEq(x, s[0]) then
      assert forall j :: 0 <= j < |s| ==> LexLessEq(x, s[j]) by {
        forall j | 0 <= j < |s| ensures LexLessEq(x, s[j]) {
          if j > 0 { LexTransitive(x, s[0], s[j]); }
        }
      }
      [x] + s
    else
      LexTotal(x, s[0]);
      var tail := Insert(x, s[1..]);
      assert s == [s[0]] + s[1..];
      assert forall j :: 0 <= j < |tail| ==> LexLessEq(s[0], tail[j]) by {
        forall j | 0 <= j < |tail| ensures LexLessEq(s[0], tail[j]) {
          assert tail[j] in multiset(tail);
          if tail[j] != x {
            assert tail[j] in multiset(s[1..]);
            var k :| 0 <= k < |s[1..]| && s[1..][k] == tail[j];
            assert s[k + 1] == tail[j];
          }
        }
      }
      [s[0]] + tail
  }

  /** `s.sort(compare)`: a sorted permutation of `s`. */
  function Sort(s: seq<string>): (r: seq<string>)
    ensures Sorted(r)
    ensures multiset(r) == multiset(s)
  {
    if s == [] then []
    else
      assert s == [s[0]] + s[1..];
      Insert(s[0], Sort(s[1..]))
  }

  /** The first element of a sorted sequence is below every element. */
  lemma SortedHeadLeast(s: seq<string>, x: string)
    requires Sorted(s) && x in s
    ensures LexLessEq(s[0], x)
  {
    var k :| 0 <= k < |s| && s[k] == x;
    if k == 0 { LexReflexive(x); }
  }

  /** Dropping the first element removes one copy of it. */
  lemma MultisetTail(a: seq<string>)
    requires a != []
    ensures a == [a[0]] + a[1..]
    ensures multiset(a[1..]) == multiset(a) - multiset{a[0]}
  {
    assert a == [a[0]] + a[1..];
  }

  /** Any two sorted permutations of the same names are equal, so the result
      of sorting does not depend on how the sort is carried out. */
  lemma {:induction false} SortedUnique(a: seq<string>, b: seq<string>)
    requires Sorted(a) && Sorted(b)
    requires multiset(a) == multiset(b)
    ensures a == b
    decreases |a|
  {
    if a != [] {
      assert a[0] in multiset(a);
      assert b != [];
      assert b[0] in multiset(b);
      SortedHeadLeast(a, b[0]);
      SortedHeadLeast(b, a[0]);
      LexAntisymmetric(a[0], b[0]);
      MultisetTail(a);
      MultisetTail(b);
      SortedUnique(a[1..], b[1..]);
    } else {
      assert |b| == |multiset(b)| == 0;
    }
  }
}
