/**
 * JavaScript strings as the page sees them: sequences of UTF-16 code units,
 * with the String operations the page relies on (`startsWith`, `indexOf`,
 * `split` on a one-unit separator).
 */
module JsText {

  /** One UTF-16 code unit. */
  newtype CodeUnit = x: int | 0 <= x < 0x1_0000

  /** A JavaScript string value. */
  type JsString = seq<CodeUnit>

  /** The code unit of a character of the Basic Multilingual Plane. Literals of
      the page are ASCII; a character outside the plane maps to U+FFFD. */
  function Unit(c: char): CodeUnit
  {
    if c as int < 0x1_0000 then (c as int) as CodeUnit else 0xFFFD
  }

  /** A string literal of the source, as code units. */
  function Lit(s: string): JsString
  {
    seq(|s|, i requires 0 <= i < |s| => Unit(s[i]))
  }

  /** `s.startsWith(p)`. */
  predicate StartsWith(s: JsString, p: JsString)
  {
    p <= s
  }

  /** The position of the first `x` in `s`, or `|s|` when `s` holds none
      (`indexOf`, with "absent" reported as the length instead of -1). */
  function IndexOf<T(==)>(s: seq<T>, x: T): (i: nat)
    ensures i <= |s|
    ensures i < |s| ==> s[i] == x
    ensures forall j :: 0 <= j < i ==> s[j] != x
    ensures i == |s| <==> x !in s
  {
    if |s| == 0 then 0
    else if s[0] == x then 0
    else 1 + IndexOf(s[1..], x)
  }

  /** `s.split(sep)` for a separator of one element: the pieces between the
      separators, in order; the empty input gives one empty piece. */
  function Split<T(==)>(s: seq<T>, sep: T): (parts: seq<seq<T>>)
    ensures |parts| >= 1
    decreases |s|
  {
    var i := IndexOf(s, sep);
    if i == |s| then [s] else [s[..i]] + Split(s[i + 1..], sep)
  }

  /** The pieces put back together with `sep` between neighbours (`join`). */
  function Join<T>(parts: seq<seq<T>>, sep: T): seq<T>
    requires |parts| >= 1
  {
    if |parts| == 1 then parts[0] else parts[0] + [sep] + Join(parts[1..], sep)
  }

  /** No piece holds the separator. */
  predicate SeparatorFree<T(==)>(parts: seq<seq<T>>, sep: T)
  {
    forall k :: 0 <= k < |parts| ==> sep !in parts[k]
  }

  /** The first separator of `a + [sep] + b` is the one after `a` when `a`
      holds none. */
  lemma {:induction false} IndexOfAfterFree<T>(a: seq<T>, sep: T, b: seq<T>)
    requires sep !in a
    ensures IndexOf(a + [sep] + b, sep) == |a|
  {
    var s := a + [sep] + b;
    assert s[|a|] == sep;
    assert forall j :: 0 <= j < |a| ==> s[j] == a[j];
  }

  /** Splitting undoes joining separator-free pieces. */
  lemma {:induction false} SplitJoin<T>(parts: seq<seq<T>>, sep: T)
    requires |parts| >= 1
    requires SeparatorFree(parts, sep)
    ensures Split(Join(parts, sep), sep) == parts
  {
    if |parts| == 1 {
      var a := parts[0];
      assert sep !in a;
      assert IndexOf(a, sep) == |a|;
      assert Split(a, sep) == [a];
      assert parts == [a];
    } else {
      var a, tail := parts[0], parts[1..];
      assert sep !in a;
      forall k | 0 <= k < |tail| ensures sep !in tail[k] {
        assert tail[k] == parts[k + 1];
      }
      var rest := Join(tail, sep);
      var s := a + [sep] + rest;
      assert Join(parts, sep) == s;
      IndexOfAfterFree(a, sep, rest);
      assert s[..|a|] == a;
      assert s[|a| + 1..] == rest;
      SplitJoin(tail, sep);
      assert Split(s, sep) == [a] + tail;
      assert parts == [a] + tail;
    }
  }

  /** Everything in a join is the separator or comes from one of the pieces. */
  lemma {:induction false} JoinMembers<T>(parts: seq<seq<T>>, sep: T)
    requires |parts| >= 1
    ensures forall x :: x in Join(parts, sep) ==> x == sep || exists k :: 0 <= k < |parts| && x in parts[k]
    decreases |parts|
  {
    if |parts| > 1 {
      JoinMembers(parts[1..], sep);
      forall x | x in Join(parts[1..], sep) && x != sep
        ensures exists k :: 0 <= k < |parts| && x in parts[k]
      {
        var j :| 0 <= j < |parts[1..]| && x in parts[1..][j];
        assert x in parts[j + 1];
      }
      assert Join(parts, sep) == parts[0] + [sep] + Join(parts[1..], sep);
    }
  }

  /** Joining one more piece appends a separator and that piece. */
  lemma {:induction false} JoinSnoc<T>(parts: seq<seq<T>>, l: seq<T>, sep: T)
    requires |parts| >= 1
    ensures Join(parts + [l], sep) == Join(parts, sep) + [sep] + l
    decreases |parts|
  {
    var ps := parts + [l];
    if |parts| == 1 {
      assert ps[1..] == [l];
    } else {
      assert ps[1..] == parts[1..] + [l];
      JoinSnoc(parts[1..], l, sep);
      assert ps[0] == parts[0];
    }
  }

  lemma ConcatAssoc<T>(a: seq<T>, b: seq<T>, c: seq<T>)
    ensures (a + b) + c == a + (b + c)
  {
  }

  /** Joining one more piece written as a separator-led tag, then a value. */
  lemma JoinAppendLine<T>(parts: seq<seq<T>>, acc: seq<T>, sep: T, tag: seq<T>, value: seq<T>)
    requires |parts| >= 1 && acc == Join(parts, sep)
    ensures acc + ([sep] + tag) + value == Join(parts + [tag + value], sep)
  {
    JoinSnoc(parts, tag + value, sep);
    ConcatAssoc(acc, [sep], tag);
    ConcatAssoc(acc + [sep], tag, value);
  }

  /** Joining one more piece written as a separator-led tag alone. */
  lemma JoinAppendBare<T>(parts: seq<seq<T>>, acc: seq<T>, sep: T, tag: seq<T>)
    requires |parts| >= 1 && acc == Join(parts, sep)
    ensures acc + ([sep] + tag) == Join(parts + [tag], sep)
  {
    JoinSnoc(parts, tag, sep);
    ConcatAssoc(acc, [sep], tag);
  }

  /** The pieces of a split hold no separator. */
  lemma {:induction false} SplitSeparatorFree<T>(s: seq<T>, sep: T)
    ensures SeparatorFree(Split(s, sep), sep)
    decreases |s|
  {
    var i := IndexOf(s, sep);
    var head := s[..i];
    forall j | 0 <= j < |head| ensures head[j] != sep {
      assert head[j] == s[j];
    }
    if i < |s| {
      var rest := s[i + 1..];
      var tail := Split(rest, sep);
      SplitSeparatorFree(rest, sep);
      var parts := [head] + tail;
      assert Split(s, sep) == parts;
      forall k | 0 <= k < |parts| ensures sep !in parts[k] {
        if k > 0 {
          assert parts[k] == tail[k - 1];
        }
      }
    } else {
      assert Split(s, sep) == [s];
    }
  }

  /** Splitting a join gives back its pieces exactly when no piece holds
      the separator. */
  lemma SplitJoinIff<T>(parts: seq<seq<T>>, sep: T)
    requires |parts| >= 1
    ensures Split(Join(parts, sep), sep) == parts <==> SeparatorFree(parts, sep)
  {
    if SeparatorFree(parts, sep) {
      SplitJoin(parts, sep);
    } else {
      SplitSeparatorFree(Join(parts, sep), sep);
    }
  }
}
