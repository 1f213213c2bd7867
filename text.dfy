/** Stand-ins for the parts of Go's `strings` and `regexp` packages that dr-get-dicom uses.
    A string is a sequence of characters; the command only handles ASCII path names, so one
    character stands for one byte. */
module Text {

  datatype Option<T> = None | Some(value: T)

  /** strings.HasSuffix */
  predicate HasSuffix(s: string, suffix: string) {
    |suffix| <= |s| && s[|s| - |suffix|..] == suffix
  }

  lemma ConcatSuffix(a: string, b: string)
    ensures HasSuffix(a + b, b)
  {
    assert (a + b)[|a|..] == b;
  }

  lemma SuffixTransitive(s: string, t: string, u: string)
    requires HasSuffix(s, t) && HasSuffix(t, u)
    ensures HasSuffix(s, u)
  {
    assert s[|s| - |u|..] == t[|t| - |u|..];
  }

  /** `sub` occurs in `s` starting at position `i`. */
  predicate OccursAt(s: string, sub: string, i: int) {
    0 <= i && i + |sub| <= |s| && s[i..i + |sub|] == sub
  }

  /** The first occurrence of `sub` in `s` at or after `k`, or -1. */
  function IndexFrom(s: string, sub: string, k: nat): (i: int)
    ensures i == -1 || (k <= i && OccursAt(s, sub, i))
    ensures forall j :: k <= j && (i < 0 || j < i) ==> !OccursAt(s, sub, j)
    decreases |s| - k
  {
    if k + |sub| > |s| then -1
    else if s[k..k + |sub|] == sub then k
    else IndexFrom(s, sub, k + 1)
  }

  /** strings.Index: the position of the first occurrence of `sub` in `s`, or -1. */
  function IndexOf(s: string, sub: string): (i: int)
    ensures i == -1 || OccursAt(s, sub, i)
    ensures forall j :: 0 <= j && (i < 0 || j < i) ==> !OccursAt(s, sub, j)
  {
    IndexFrom(s, sub, 0)
  }

  /** strings.Contains */
  predicate Contains(s: string, sub: string) {
    IndexOf(s, sub) >= 0
  }

  lemma ContainsIff(s: string, sub: string)
    ensures Contains(s, sub) <==> exists j :: OccursAt(s, sub, j)
  {
    if Contains(s, sub) {
      assert OccursAt(s, sub, IndexOf(s, sub));
    }
  }

  /** The position of the last `c` in `s`, or -1 when `c` does not occur. */
  function LastIndexOf(s: string, c: char): (i: int)
    ensures -1 <= i < |s|
    ensures i >= 0 ==> s[i] == c
    ensures forall j :: i < j < |s| ==> s[j] != c
  {
    if |s| == 0 then -1
    else if s[|s| - 1] == c then |s| - 1
    else LastIndexOf(s[..|s| - 1], c)
  }

  /** strings.Split(s, string(sep)): the fields between occurrences of `sep`, empty ones included. */
  function Split(s: string, sep: char): (fields: seq<string>)
    ensures |fields| >= 1
    ensures forall k :: 0 <= k < |fields| ==> sep !in fields[k]
    decreases |s|
  {
    var i := LastIndexOf(s, sep);
    if i < 0 then [s]
    else
      var last := s[i + 1..];
      assert sep !in last by {
        forall j | 0 <= j < |last| ensures last[j] != sep {
          assert last[j] == s[i + 1 + j];
        }
      }
      Split(s[..i], sep) + [last]
  }

  /** strings.Join */
  function JoinWith(parts: seq<string>, sep: string): string
    decreases |parts|
  {
    if |parts| == 0 then ""
    else if |parts| == 1 then parts[0]
    else JoinWith(parts[..|parts| - 1], sep) + sep + parts[|parts| - 1]
  }

  lemma LastIndexOfIs(s: string, c: char, i: int)
    requires 0 <= i < |s| && s[i] == c
    requires forall j :: i < j < |s| ==> s[j] != c
    ensures LastIndexOf(s, c) == i
  {
  }

  /** Splitting where the last separator is known. */
  lemma SplitAtLast(s: string, sep: char, i: int)
    requires 0 <= i < |s| && s[i] == sep
    requires forall j :: i < j < |s| ==> s[j] != sep
    ensures Split(s, sep) == Split(s[..i], sep) + [s[i + 1..]]
  {
    LastIndexOfIs(s, sep, i);
  }

  /** Splitting distributes over a separator placed between two strings. */
  lemma {:induction false} SplitConcat(a: string, b: string, sep: char)
    ensures Split(a + [sep] + b, sep) == Split(a, sep) + Split(b, sep)
    decreases |b|
  {
    var j := LastIndexOf(b, sep);
    if j < 0 {
      SplitConcatLastField(a, b, sep);
    } else {
      SplitConcatInner(a, b, sep, j);
      SplitConcat(a, b[..j], sep);
    }
  }

  lemma SplitConcatLastField(a: string, b: string, sep: char)
    requires LastIndexOf(b, sep) < 0
    ensures Split(a + [sep] + b, sep) == Split(a, sep) + [b]
    ensures Split(b, sep) == [b]
  {
    var s := a + [sep] + b;
    forall m | |a| < m < |s| ensures s[m] != sep {
      assert s[m] == b[m - |a| - 1];
    }
    SplitAtLast(s, sep, |a|);
    assert s[..|a|] == a;
    assert s[|a| + 1..] == b;
  }

  lemma SplitConcatInner(a: string, b: string, sep: char, j: int)
    requires j == LastIndexOf(b, sep) >= 0
    ensures Split(a + [sep] + b, sep) == Split(a + [sep] + b[..j], sep) + [b[j + 1..]]
    ensures Split(b, sep) == Split(b[..j], sep) + [b[j + 1..]]
  {
    SplitAtLast(b, sep, j);
    var s := a + [sep] + b;
    var m := |a| + 1 + j;
    SplitAtLast(s, sep, m);
    assert s[..m] == a + [sep] + b[..j];
    assert s[m + 1..] == b[j + 1..];
  }

  /** Joining fields that do not contain the separator and splitting again gives the fields back. */
  lemma {:induction false} SplitJoinWith(parts: seq<string>, sep: char)
    requires |parts| >= 1
    requires forall k :: 0 <= k < |parts| ==> sep !in parts[k]
    ensures Split(JoinWith(parts, [sep]), sep) == parts
    decreases |parts|
  {
    if |parts| == 1 {
      assert LastIndexOf(parts[0], sep) == -1;
    } else {
      var init := parts[..|parts| - 1];
      SplitJoinWith(init, sep);
      SplitConcat(JoinWith(init, [sep]), parts[|parts| - 1], sep);
      assert LastIndexOf(parts[|parts| - 1], sep) == -1;
      assert init + [parts[|parts| - 1]] == parts;
    }
  }

  predicate IsDigit(c: char) {
    '0' <= c <= '9'
  }

  /** Three digits followed by '-' start at position `i` of `s`. */
  predicate SeriesIdAt(s: string, i: int) {
    0 <= i && i + 4 <= |s| &&
    IsDigit(s[i]) && IsDigit(s[i + 1]) && IsDigit(s[i + 2]) && s[i + 3] == '-'
  }

  function SeriesIdFrom(s: string, k: nat): (b: bool)
    ensures b <==> exists i :: k <= i && SeriesIdAt(s, i)
    decreases |s| - k
  {
    if k + 4 > |s| then false
    else if SeriesIdAt(s, k) then true
    else SeriesIdFrom(s, k + 1)
  }

  /** regexp.MatchString("[0-9]{3}-.*", s). The pattern is not anchored and `.*` also matches
      the empty string, so `s` matches when three digits followed by '-' occur anywhere in it. */
  function HasSeriesId(s: string): (b: bool)
    ensures b <==> exists i :: SeriesIdAt(s, i)
  {
    SeriesIdFrom(s, 0)
  }

  /** The non-empty strings of `fields`, in order. */
  function NonEmpty(fields: seq<string>): (ws: seq<string>)
    ensures forall k :: 0 <= k < |ws| ==> ws[k] != ""
    decreases |fields|
  {
    if fields == [] then []
    else
      var last := fields[|fields| - 1];
      NonEmpty(fields[..|fields| - 1]) + (if last == "" then [] else [last])
  }

  /** How a shell splits a command line without quotes: the non-empty runs between spaces. */
  function Words(s: string): seq<string> {
    NonEmpty(Split(s, ' '))
  }

  lemma {:induction false} NonEmptyAppend(xs: seq<string>, ys: seq<string>)
    ensures NonEmpty(xs + ys) == NonEmpty(xs) + NonEmpty(ys)
    decreases |ys|
  {
    if ys == [] {
      assert xs + ys == xs;
    } else {
      assert (xs + ys)[..|xs + ys| - 1] == xs + ys[..|ys| - 1];
      NonEmptyAppend(xs, ys[..|ys| - 1]);
    }
  }

  /** The words of two strings joined by a space. */
  lemma WordsConcat(a: string, b: string)
    ensures Words(a + " " + b) == Words(a) + Words(b)
  {
    assert a + " " + b == a + [' '] + b;
    SplitConcat(a, b, ' ');
    NonEmptyAppend(Split(a, ' '), Split(b, ' '));
  }

  /** A non-empty string without spaces is one word. */
  lemma OneWord(w: string)
    requires w != "" && ' ' !in w
    ensures Words(w) == [w]
  {
    assert LastIndexOf(w, ' ') == -1;
    assert Split(w, ' ') == [w];
    assert [w][..0] == [];
    assert NonEmpty([w]) == NonEmpty([]) + [w];
  }

  /** A solver aid: a sequence display of four elements as one element and a display of three. */
  lemma Cons4(a: string, b: string, c: string, d: string)
    ensures [a] + [b, c, d] == [a, b, c, d]
  {
  }

  /** Four words joined by single spaces split back into those words. */
  lemma FourWords(a: string, b: string, c: string, d: string)
    requires a != "" && ' ' !in a
    requires b != "" && ' ' !in b
    requires c != "" && ' ' !in c
    requires d != "" && ' ' !in d
    ensures Words(a + " " + b + " " + c + " " + d) == [a, b, c, d]
  {
    var cd := c + " " + d;
    assert Words(cd) == [c, d] by {
      WordsConcat(c, d);
      OneWord(c);
      OneWord(d);
    }
    var bcd := b + " " + cd;
    assert Words(bcd) == [b, c, d] by {
      WordsConcat(b, cd);
      OneWord(b);
    }
    var abcd := a + " " + bcd;
    assert Words(abcd) == [a, b, c, d] by {
      WordsConcat(a, bcd);
      OneWord(a);
      assert Words(abcd) == Words(a) + Words(bcd);
      Cons4(a, b, c, d);
    }
    assert a + " " + b + " " + c + " " + d == abcd;
  }

  // ---- Subsequences ----

  /** `xs` is `ys` with some elements left out, the rest kept in order. */
  predicate IsSubsequence<T(==)>(xs: seq<T>, ys: seq<T>)
    decreases |ys|
  {
    xs == [] || (ys != [] && if xs[0] == ys[0] then IsSubsequence(xs[1..], ys[1..]) else IsSubsequence(xs, ys[1..]))
  }

  lemma {:induction false} SubsequenceSkipFirst<T>(xs: seq<T>, y: T, ys: seq<T>)
    requires IsSubsequence(xs, ys)
    ensures IsSubsequence(xs, [y] + ys)
    decreases |ys|, 1
  {
    assert ([y] + ys)[1..] == ys;
    if xs != [] && xs[0] == y {
      // xs[1..] is a subsequence of ys because xs is.
      SubsequenceDropFirst(xs, ys);
    }
  }

  lemma {:induction false} SubsequenceDropFirst<T>(xs: seq<T>, ys: seq<T>)
    requires xs != [] && IsSubsequence(xs, ys)
    ensures IsSubsequence(xs[1..], ys)
    decreases |ys|, 0
  {
    if xs[0] == ys[0] {
      if xs[1..] != [] {
        SubsequenceSkipFirst(xs[1..], ys[0], ys[1..]);
        assert [ys[0]] + ys[1..] == ys;
      }
    } else {
      SubsequenceDropFirst(xs, ys[1..]);
      if xs[1..] != [] {
        SubsequenceSkipFirst(xs[1..], ys[0], ys[1..]);
        assert [ys[0]] + ys[1..] == ys;
      }
    }
  }

  lemma {:induction false} SubsequenceSkipLast<T>(xs: seq<T>, ys: seq<T>, y: T)
    requires IsSubsequence(xs, ys)
    ensures IsSubsequence(xs, ys + [y])
    decreases |ys|
  {
    if xs != [] {
      assert (ys + [y])[0] == ys[0];
      assert (ys + [y])[1..] == ys[1..] + [y];
      if xs[0] == ys[0] {
        SubsequenceSkipLast(xs[1..], ys[1..], y);
      } else {
        SubsequenceSkipLast(xs, ys[1..], y);
      }
    }
  }

  lemma {:induction false} SubsequenceKeepLast<T>(xs: seq<T>, ys: seq<T>, y: T)
    requires IsSubsequence(xs, ys)
    ensures IsSubsequence(xs + [y], ys + [y])
    decreases |ys|
  {
    if xs == [] {
      if ys == [] {
        assert IsSubsequence<T>([], []);
      } else {
        assert (ys + [y])[1..] == ys[1..] + [y];
        SubsequenceKeepLast(xs, ys[1..], y);
        assert IsSubsequence(xs, ys[1..]);
      }
    } else {
      assert (xs + [y])[0] == xs[0] && (xs + [y])[1..] == xs[1..] + [y];
      assert (ys + [y])[0] == ys[0] && (ys + [y])[1..] == ys[1..] + [y];
      if xs[0] == ys[0] {
        SubsequenceKeepLast(xs[1..], ys[1..], y);
      } else {
        SubsequenceKeepLast(xs, ys[1..], y);
      }
    }
  }
}
