/** The handful of Python string operations the upload and view callbacks use:
    `str.endswith`, the `in` substring test, `str.split` on one character,
    `str.join`, and the first-occurrence de-duplication that
    `DataFrame.to_dict('records')` applies to repeated column names. */
module Strings {

  /** `s.endswith(suffix)` */
  predicate EndsWith(s: string, suffix: string)
    ensures EndsWith(s, suffix) <==> exists p :: s == p + suffix
  {
    assert |suffix| <= |s| ==> s == s[..|s| - |suffix|] + s[|s| - |suffix|..];
    |suffix| <= |s| && s[|s| - |suffix|..] == suffix
  }

  predicate IsPrefix(p: string, s: string) {
    |p| <= |s| && s[..|p|] == p
  }

  /** `sub in s`, written as a scan from the left. */
  predicate Contains(s: string, sub: string)
    ensures Contains(s, sub) ==> |sub| <= |s|
    decreases |s|
  {
    IsPrefix(sub, s) || (|s| > 0 && Contains(s[1..], sub))
  }

  /** The reference meaning of `sub in s`: `sub` occurs at some offset of `s`. */
  ghost predicate OccursAt(s: string, sub: string, i: nat) {
    i + |sub| <= |s| && s[i..i + |sub|] == sub
  }

  lemma SliceOfTail(s: string, a: nat, b: nat)
    requires 1 <= a <= b <= |s|
    ensures s[1..][a - 1..b - 1] == s[a..b]
  {
    assert |s[1..][a - 1..b - 1]| == b - a;
    forall k | 0 <= k < b - a ensures s[1..][a - 1..b - 1][k] == s[a..b][k] {
    }
  }

  lemma {:induction false} ContainsIffOccurs(s: string, sub: string)
    ensures Contains(s, sub) <==> exists i: nat :: OccursAt(s, sub, i)
    decreases |s|
  {
    if IsPrefix(sub, s) {
      assert OccursAt(s, sub, 0);
    } else if |s| > 0 {
      ContainsIffOccurs(s[1..], sub);
      if Contains(s[1..], sub) {
        var i: nat :| OccursAt(s[1..], sub, i);
        SliceOfTail(s, i + 1, i + 1 + |sub|);
        assert OccursAt(s, sub, i + 1);
      } else {
        forall i: nat | OccursAt(s, sub, i) ensures false {
          if i > 0 {
            SliceOfTail(s, i, i + |sub|);
            assert OccursAt(s[1..], sub, i - 1);
          }
        }
      }
    } else {
      assert forall i: nat :: !OccursAt(s, sub, i);
    }
  }

  /** Number of occurrences of the character `c` in `s`. */
  function Count(s: string, c: char): nat {
    if s == [] then 0 else (if s[0] == c then 1 else 0) + Count(s[1..], c)
  }

  /** `s.split(sep)` for a one-character separator: always at least one part,
      and no part holds the separator. */
  function Split(s: string, sep: char): (parts: seq<string>)
    ensures |parts| == Count(s, sep) + 1
    ensures forall k :: 0 <= k < |parts| ==> sep !in parts[k]
  {
    if s == [] then [[]]
    else if s[0] == sep then [[]] + Split(s[1..], sep)
    else
      var rest := Split(s[1..], sep);
      [[s[0]] + rest[0]] + rest[1..]
  }

  /** `sep.join(parts)` */
  function Join(sep: string, parts: seq<string>): (r: string)
    ensures |parts| == 0 ==> r == ""
    ensures |parts| > 0 ==> IsPrefix(parts[0], r)
  {
    if |parts| == 0 then ""
    else if |parts| == 1 then parts[0]
    else parts[0] + sep + Join(sep, parts[1..])
  }

  lemma JoinCons(sep: string, p: string, ps: seq<string>)
    requires |ps| > 0
    ensures Join(sep, [p] + ps) == p + sep + Join(sep, ps)
  {
    assert ([p] + ps)[1..] == ps;
  }

  /** Appending a part appends the separator and that part, for any separator. */
  lemma {:induction false} JoinSnoc(sep: string, ps: seq<string>, p: string)
    requires |ps| > 0
    ensures Join(sep, ps + [p]) == Join(sep, ps) + sep + p
    decreases |ps|
  {
    if |ps| == 1 {
      assert ps + [p] == [ps[0]] + [p];
      JoinCons(sep, ps[0], [p]);
    } else {
      JoinSnoc(sep, ps[1..], p);
      assert ps + [p] == [ps[0]] + (ps[1..] + [p]);
      JoinCons(sep, ps[0], ps[1..] + [p]);
      JoinCons(sep, ps[0], ps[1..]);
      assert ps == [ps[0]] + ps[1..];
    }
  }

  /** The joined text is the parts' lengths plus one separator between each two. */
  function TotalLength(ps: seq<string>): nat {
    if ps == [] then 0 else |ps[0]| + TotalLength(ps[1..])
  }

  lemma {:induction false} JoinLength(sep: string, ps: seq<string>)
    requires |ps| > 0
    ensures |Join(sep, ps)| == TotalLength(ps) + |sep| * (|ps| - 1)
    decreases |ps|
  {
    if |ps| > 1 {
      JoinLength(sep, ps[1..]);
      JoinCons(sep, ps[0], ps[1..]);
      assert ps == [ps[0]] + ps[1..];
    }
  }

  /** Splitting and joining back with the same separator gives the original text. */
  lemma {:induction false} JoinSplit(s: string, sep: char)
    ensures Join([sep], Split(s, sep)) == s
    decreases |s|
  {
    if s != [] {
      var rest := Split(s[1..], sep);
      JoinSplit(s[1..], sep);
      if s[0] == sep {
        JoinCons([sep], [], rest);
        assert s == [sep] + s[1..];
      } else if |rest| == 1 {
        assert Split(s, sep) == [[s[0]] + rest[0]];
        assert s == [s[0]] + s[1..];
      } else {
        assert Split(s, sep) == [[s[0]] + rest[0]] + rest[1..];
        JoinCons([sep], [s[0]] + rest[0], rest[1..]);
        assert rest == [rest[0]] + rest[1..];
        JoinCons([sep], rest[0], rest[1..]);
        assert s == [s[0]] + s[1..];
      }
    }
  }

  /** Joining separator-free parts and splitting again gives the parts back. */
  lemma {:induction false} SplitJoin(parts: seq<string>, sep: char)
    requires |parts| > 0
    requires forall k :: 0 <= k < |parts| ==> sep !in parts[k]
    ensures Split(Join([sep], parts), sep) == parts
    decreases |parts|
  {
    if |parts| == 1 {
      SplitFree(parts[0], sep);
    } else {
      SplitJoin(parts[1..], sep);
      SplitPrefix(parts[0], Join([sep], parts[1..]), sep);
      assert parts == [parts[0]] + parts[1..];
    }
  }

  lemma {:induction false} SplitFree(s: string, sep: char)
    requires sep !in s
    ensures Split(s, sep) == [s]
    decreases |s|
  {
    if s != [] {
      assert s[0] in s;
      assert forall c :: c in s[1..] ==> c in s;
      SplitFree(s[1..], sep);
      assert s == [s[0]] + s[1..];
    }
  }

  lemma {:induction false} SplitPrefix(p: string, rest: string, sep: char)
    requires sep !in p
    ensures Split(p + [sep] + rest, sep) == [p] + Split(rest, sep)
    decreases |p|
  {
    if p == [] {
      assert p + [sep] + rest == [sep] + rest;
      assert ([sep] + rest)[1..] == rest;
    } else {
      var s := p + [sep] + rest;
      assert s[0] == p[0] && p[0] != sep by { assert p[0] in p; }
      assert s[1..] == p[1..] + [sep] + rest;
      assert forall c :: c in p[1..] ==> c in p;
      SplitPrefix(p[1..], rest, sep);
      assert [p[0]] + p[1..] == p;
    }
  }

  /** A sequence in which no element occurs twice. */
  predicate NoDup<T(==)>(s: seq<T>) {
    forall i, j :: 0 <= i < j < |s| ==> s[i] != s[j]
  }

  /** The elements of `s` in order of first occurrence. */
  function Dedup(s: seq<string>): (r: seq<string>)
    ensures NoDup(r)
    ensures forall x :: x in r <==> x in s
  {
    if |s| == 0 then []
    else
      var r := Dedup(s[..|s| - 1]);
      assert forall x :: x in s <==> x in s[..|s| - 1] || x == s[|s| - 1];
      if s[|s| - 1] in r then r else r + [s[|s| - 1]]
  }

  /** The index of the first occurrence of `x` in `s`. */
  function FirstIndex(s: seq<string>, x: string): (i: nat)
    requires x in s
    ensures i < |s| && s[i] == x && x !in s[..i]
  {
    if s[0] == x then 0
    else
      assert forall k :: 0 <= k < |s| - 1 ==> s[1..][k] == s[k + 1];
      var j := FirstIndex(s[1..], x);
      assert s[..j + 1] == [s[0]] + s[1..][..j];
      j + 1
  }

  lemma FirstIndexSnoc(s: seq<string>, y: string, x: string)
    requires x in s
    ensures FirstIndex(s + [y], x) == FirstIndex(s, x)
  {
    var i := FirstIndex(s, x);
    assert (s + [y])[i] == x && (s + [y])[..i] == s[..i];
  }

  /** Dedup lists the names in the order in which they first occur. */
  lemma {:induction false} DedupFirstOccurrenceOrder(s: seq<string>)
    ensures forall i, j :: 0 <= i < j < |Dedup(s)| ==>
              FirstIndex(s, Dedup(s)[i]) < FirstIndex(s, Dedup(s)[j])
  {
    if |s| > 0 {
      var init := s[..|s| - 1];
      var last := s[|s| - 1];
      assert s == init + [last];
      DedupFirstOccurrenceOrder(init);
      var r := Dedup(init);
      forall x | x in r ensures FirstIndex(s, x) == FirstIndex(init, x) {
        FirstIndexSnoc(init, last, x);
      }
      if last !in r {
        assert last !in init;
        assert FirstIndex(s, last) == |init|;
      }
    }
  }

  /** De-duplicating a sequence without repetitions changes nothing. */
  lemma {:induction false} DedupOfNoDup(s: seq<string>)
    requires NoDup(s)
    ensures Dedup(s) == s
  {
    if |s| > 0 {
      var init := s[..|s| - 1];
      assert NoDup(init);
      DedupOfNoDup(init);
      assert s[|s| - 1] !in init;
      assert s == init + [s[|s| - 1]];
    }
  }
}
