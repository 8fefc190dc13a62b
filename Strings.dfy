/** The few text operations of Go's `strings` and `unicode` packages that the
    command parser of main.go relies on: HasPrefix, TrimSpace (over
    unicode.IsSpace), Index and SplitN, together with Join, their inverse.
    Text is decoded: a Dafny `string` is a sequence of Unicode scalar values. */
module Strings {

  /** strings.HasPrefix: `prefix` is the first |prefix| characters of `s`. */
  predicate HasPrefix(s: string, prefix: string) {
    |prefix| <= |s| && s[..|prefix|] == prefix
  }

  /** unicode.IsSpace: the Latin-1 spaces '\t', '\n', '\v', '\f', '\r', ' ',
      U+0085 and U+00A0, and above Latin-1 the characters with Unicode's
      White_Space property. */
  predicate IsSpace(ch: char) {
    || ch == '\t' || ch == '\n' || ch == '\U{000B}' || ch == '\U{000C}' || ch == '\r'
    || ch == ' ' || ch == '\U{0085}' || ch == '\U{00A0}' || ch == '\U{1680}'
    || ('\U{2000}' <= ch <= '\U{200A}')
    || ch == '\U{2028}' || ch == '\U{2029}' || ch == '\U{202F}' || ch == '\U{205F}'
    || ch == '\U{3000}'
  }

  ghost predicate AllSpace(s: string) {
    forall k | 0 <= k < |s| :: IsSpace(s[k])
  }

  /** Neither end of `s` is a space: what TrimSpace leaves behind. */
  predicate Trimmed(s: string) {
    s == [] || (!IsSpace(s[0]) && !IsSpace(s[|s| - 1]))
  }

  /** Drops the leading spaces (TrimLeftIsSuffix). */
  function TrimLeft(s: string): string {
    if s != [] && IsSpace(s[0]) then TrimLeft(s[1..]) else s
  }

  /** What TrimLeft keeps is the suffix of `s` that starts at its first
      non-space character. */
  lemma {:induction false} TrimLeftIsSuffix(s: string)
    ensures var r := TrimLeft(s);
            && |r| <= |s| && r == s[|s| - |r|..]
            && AllSpace(s[..|s| - |r|])
            && (r != [] ==> !IsSpace(r[0]))
  {
    if s != [] && IsSpace(s[0]) {
      TrimLeftIsSuffix(s[1..]);
      var r := TrimLeft(s);
      assert s[..|s| - |r|] == [s[0]] + s[1..][..|s| - 1 - |r|];
    }
  }

  /** Drops the trailing spaces (TrimRightIsPrefix). */
  function TrimRight(s: string): string {
    if s != [] && IsSpace(s[|s| - 1]) then TrimRight(s[..|s| - 1]) else s
  }

  /** What TrimRight keeps is the prefix of `s` that ends at its last
      non-space character. */
  lemma {:induction false} TrimRightIsPrefix(s: string)
    ensures var r := TrimRight(s);
            && |r| <= |s| && r == s[..|r|]
            && AllSpace(s[|r|..])
            && (r != [] ==> !IsSpace(r[|r| - 1]))
  {
    if s != [] && IsSpace(s[|s| - 1]) {
      TrimRightIsPrefix(s[..|s| - 1]);
      var r := TrimRight(s);
      assert s[|r|..] == s[..|s| - 1][|r|..] + [s[|s| - 1]];
    }
  }

  /** strings.TrimSpace: the spaces at both ends cut away (TrimSpaceTrims). */
  function TrimSpace(s: string): string {
    TrimRight(TrimLeft(s))
  }

  /** TrimSpace leaves no space at either end, and leaves nothing exactly
      when `s` is all spaces. */
  lemma TrimSpaceTrims(s: string)
    ensures Trimmed(TrimSpace(s))
    ensures TrimSpace(s) == [] <==> AllSpace(s)
  {
    var left := TrimLeft(s);
    var r := TrimRight(left);
    TrimLeftIsSuffix(s);
    TrimRightIsPrefix(left);
    assert r != [] ==> r[0] == left[0];
    if r == [] {
      assert s[..|s| - |left|] == s;
    } else {
      assert !IsSpace(s[|s| - |left|]);
    }
  }

  /** What TrimSpace keeps is the slice of `s` between its leading and its
      trailing spaces. */
  lemma TrimSpaceIsSlice(s: string)
    ensures exists i, j | 0 <= i <= j <= |s| ::
      TrimSpace(s) == s[i..j] && AllSpace(s[..i]) && AllSpace(s[j..])
  {
    var left := TrimLeft(s);
    var r := TrimRight(left);
    TrimLeftIsSuffix(s);
    TrimRightIsPrefix(left);
    var i := |s| - |left|;
    var j := i + |r|;
    assert r == s[i..j];
    assert s[j..] == left[|r|..];
  }

  /** TrimSpace leaves text without spaces at its ends as it is. */
  lemma TrimSpaceOfTrimmed(s: string)
    requires Trimmed(s)
    ensures TrimSpace(s) == s
  {
    assert TrimLeft(s) == s;
  }

  lemma {:induction false} TrimLeftPadded(pre: string, rest: string)
    requires AllSpace(pre) && (rest == [] || !IsSpace(rest[0]))
    ensures TrimLeft(pre + rest) == rest
  {
    if pre != [] {
      assert (pre + rest)[1..] == pre[1..] + rest;
      TrimLeftPadded(pre[1..], rest);
    }
  }

  lemma {:induction false} TrimRightPadded(rest: string, post: string)
    requires AllSpace(post) && (rest == [] || !IsSpace(rest[|rest| - 1]))
    ensures TrimRight(rest + post) == rest
  {
    if post != [] {
      var s := rest + post;
      assert s[..|s| - 1] == rest + post[..|post| - 1];
      TrimRightPadded(rest, post[..|post| - 1]);
    }
  }

  /** TrimSpace recovers the text between any run of leading and any run of
      trailing spaces, provided that text has no spaces at its ends. */
  lemma TrimSpacePadded(pre: string, core: string, post: string)
    requires AllSpace(pre) && AllSpace(post) && Trimmed(core)
    ensures TrimSpace(pre + core + post) == core
  {
    var s := pre + core + post;
    if core == [] {
      assert s == pre + post;
      assert AllSpace(s) by {
        forall k | 0 <= k < |s| ensures IsSpace(s[k]) {
          if k >= |pre| { assert s[k] == post[k - |pre|]; }
        }
      }
      TrimSpaceTrims(s);
    } else {
      assert s == pre + (core + post);
      TrimLeftPadded(pre, core + post);
      TrimRightPadded(core, post);
    }
  }

  /** strings.Index for a one-character separator: the position of the first
      `sep` in `s`, or -1 when there is none (IndexIsFirst). */
  function Index(s: string, sep: char): (i: int)
    ensures -1 <= i < |s|
  {
    if s == [] then -1
    else if s[0] == sep then 0
    else
      var j := Index(s[1..], sep);
      if j == -1 then -1 else j + 1
  }

  /** Index finds the first separator, and finds none only when there is
      none. */
  lemma {:induction false} IndexIsFirst(s: string, sep: char)
    ensures Index(s, sep) == -1 <==> sep !in s
    ensures 0 <= Index(s, sep) ==> s[Index(s, sep)] == sep && sep !in s[..Index(s, sep)]
  {
    if s != [] && s[0] != sep {
      var j := Index(s[1..], sep);
      IndexIsFirst(s[1..], sep);
      assert s == [s[0]] + s[1..];
      if j != -1 {
        assert s[..j + 1] == [s[0]] + s[1..][..j];
      }
    }
  }

  /** The first separator of a + [sep] + b is the one between them when `a`
      holds none. */
  lemma {:induction false} IndexAfterField(a: string, sep: char, b: string)
    requires sep !in a
    ensures Index(a + [sep] + b, sep) == |a|
    decreases |a|
  {
    var s := a + [sep] + b;
    if a != [] {
      assert s[1..] == a[1..] + [sep] + b;
      IndexAfterField(a[1..], sep, b);
    }
  }

  /** strings.SplitN(s, sep, n) for n >= 1: cuts `s` at its first n - 1
      separators (fewer if `s` has fewer); the last part is the rest of `s`
      unsplit, separators included (SplitNFields). */
  function SplitN(s: string, sep: char, n: nat): (parts: seq<string>)
    requires 1 <= n
    ensures 1 <= |parts| <= n
    decreases n
  {
    if n == 1 then [s]
    else
      var m := Index(s, sep);
      if m == -1 then [s] else [s[..m]] + SplitN(s[m + 1..], sep, n - 1)
  }

  /** strings.Join: the parts with one separator between neighbours. */
  function Join(parts: seq<string>, sep: char): string
    requires parts != []
    decreases |parts|
  {
    if |parts| == 1 then parts[0] else parts[0] + [sep] + Join(parts[1..], sep)
  }

  /** One step of SplitN: the first field ends at the first separator. */
  lemma SplitNAtIndex(s: string, sep: char, n: nat)
    requires 2 <= n && Index(s, sep) != -1
    ensures var m := Index(s, sep); SplitN(s, sep, n) == [s[..m]] + SplitN(s[m + 1..], sep, n - 1)
  {
  }

  lemma CutAt(s: string, m: nat)
    requires m < |s|
    ensures s == s[..m] + [s[m]] + s[m + 1..]
  {
  }

  lemma FieldsAround(a: string, sep: char, b: string)
    ensures (a + [sep] + b)[..|a|] == a && (a + [sep] + b)[|a| + 1..] == b
  {
  }

  /** The fields SplitN cuts off hold no separator, and neither does the
      last one unless all n fields are present. */
  lemma {:induction false} SplitNFields(s: string, sep: char, n: nat)
    requires 1 <= n
    ensures var parts := SplitN(s, sep, n);
            && (forall k | 0 <= k < |parts| - 1 :: sep !in parts[k])
            && (|parts| < n ==> sep !in parts[|parts| - 1])
    decreases n
  {
    IndexIsFirst(s, sep);
    if n > 1 && Index(s, sep) != -1 {
      var m := Index(s, sep);
      var rest := SplitN(s[m + 1..], sep, n - 1);
      SplitNFields(s[m + 1..], sep, n - 1);
      var parts := [s[..m]] + rest;
      assert SplitN(s, sep, n) == parts;
      forall k | 0 <= k < |parts| - 1
        ensures sep !in parts[k]
      {
        if k > 0 { assert parts[k] == rest[k - 1]; }
      }
    }
  }

  /** Joining a first field to further fields puts one separator between. */
  lemma JoinCons(a: string, rest: seq<string>, sep: char)
    requires rest != []
    ensures Join([a] + rest, sep) == a + [sep] + Join(rest, sep)
  {
    assert ([a] + rest)[1..] == rest;
  }

  /** One step of JoinSplitN: the first field, its separator and the rest. */
  lemma {:induction false} JoinSplitNStep(s: string, sep: char, n: nat)
    requires 2 <= n && Index(s, sep) != -1
    ensures Join(SplitN(s, sep, n), sep) == s
    decreases n, 0
  {
    var m := Index(s, sep);
    var rest := s[m + 1..];
    IndexIsFirst(s, sep);
    JoinSplitN(rest, sep, n - 1);
    SplitNAtIndex(s, sep, n);
    JoinCons(s[..m], SplitN(rest, sep, n - 1), sep);
    CutAt(s, m);
  }

  /** Splitting loses nothing: joining the parts gives back the text. */
  lemma {:induction false} JoinSplitN(s: string, sep: char, n: nat)
    requires 1 <= n
    ensures Join(SplitN(s, sep, n), sep) == s
    decreases n, 1
  {
    if n > 1 && Index(s, sep) != -1 {
      JoinSplitNStep(s, sep, n);
    }
  }

  /** Text without a separator is one field, however many are allowed. */
  lemma SplitNWithoutSep(s: string, sep: char, n: nat)
    requires n == 1 || (1 <= n && sep !in s)
    ensures SplitN(s, sep, n) == [s]
  {
    IndexIsFirst(s, sep);
  }

  /** A field without a separator, then a separator, then the rest: the
      field comes first and the rest is split into one field fewer. */
  lemma SplitNAfterField(a: string, sep: char, b: string, n: nat)
    requires 2 <= n && sep !in a
    ensures SplitN(a + [sep] + b, sep, n) == [a] + SplitN(b, sep, n - 1)
  {
    IndexAfterField(a, sep, b);
    FieldsAround(a, sep, b);
    SplitNAtIndex(a + [sep] + b, sep, n);
  }

  /** One step of SplitNJoin: the first field is cut off at the separator
      that follows it, and the other fields are split from the rest. */
  lemma {:induction false} SplitNJoinStep(a: string, tail: seq<string>, sep: char, n: nat)
    requires 2 <= n && sep !in a && tail != []
    requires SplitN(Join(tail, sep), sep, n - 1) == tail
    ensures SplitN(Join([a] + tail, sep), sep, n) == [a] + tail
  {
    JoinCons(a, tail, sep);
    SplitNAfterField(a, sep, Join(tail, sep), n);
  }

  /** Splitting is the inverse of joining: fields without separators, of
      which the last holds none either unless all n fields are present,
      come back as they were joined. */
  lemma {:induction false} SplitNJoin(parts: seq<string>, sep: char, n: nat)
    requires 1 <= |parts| <= n
    requires forall k | 0 <= k < |parts| - 1 :: sep !in parts[k]
    requires |parts| < n ==> sep !in parts[|parts| - 1]
    ensures SplitN(Join(parts, sep), sep, n) == parts
    decreases n
  {
    if |parts| == 1 {
      SplitNWithoutSep(parts[0], sep, n);
    } else {
      var tail := parts[1..];
      assert forall k | 0 <= k < |tail| - 1 :: sep !in tail[k] by {
        forall k | 0 <= k < |tail| - 1 ensures sep !in tail[k] {
          assert tail[k] == parts[k + 1];
        }
      }
      SplitNJoin(tail, sep, n - 1);
      SplitNJoinStep(parts[0], tail, sep, n);
      assert [parts[0]] + tail == parts;
    }
  }

  /** The number of occurrences of `ch` in `s`, counted from each one to
      the next, as SplitN walks from one separator to the next. */
  function Count(s: string, ch: char): nat
    decreases |s|
  {
    var m := Index(s, ch);
    if m == -1 then 0 else 1 + Count(s[m + 1..], ch)
  }

  /** The count is zero exactly when `ch` does not occur. */
  lemma CountNone(s: string, ch: char)
    ensures Count(s, ch) == 0 <==> ch !in s
  {
    IndexIsFirst(s, ch);
  }

  /** Count is the number of occurrences of `ch` in `s`. */
  lemma {:induction false} CountIsOccurrences(s: string, ch: char)
    ensures Count(s, ch) == multiset(s)[ch]
    decreases |s|
  {
    var m := Index(s, ch);
    IndexIsFirst(s, ch);
    if m == -1 {
      assert ch !in multiset(s);
    } else {
      CountIsOccurrences(s[m + 1..], ch);
      assert s == s[..m] + [s[m]] + s[m + 1..];
      assert multiset(s) == multiset(s[..m]) + multiset{ch} + multiset(s[m + 1..]);
      assert ch !in multiset(s[..m]);
    }
  }

  /** A separator after a field without one adds one to the count. */
  lemma CountAround(a: string, sep: char, b: string)
    requires sep !in a
    ensures Count(a + [sep] + b, sep) == Count(b, sep) + 1
  {
    IndexAfterField(a, sep, b);
    FieldsAround(a, sep, b);
  }

  /** One step of SplitN, counted: one field, then the fields of the rest. */
  lemma SplitNLengthAtIndex(s: string, sep: char, n: nat)
    requires 2 <= n && Index(s, sep) != -1
    ensures |SplitN(s, sep, n)| == 1 + |SplitN(s[Index(s, sep) + 1..], sep, n - 1)|
  {
    SplitNAtIndex(s, sep, n);
  }

  lemma CappedSucc(fields: int, seps: int, n: int)
    requires fields == if seps + 1 < n - 1 then seps + 1 else n - 1
    ensures fields + 1 == if seps + 2 < n then seps + 2 else n
  {
  }

  /** The count of fields carries over from the rest after the first
      separator to the whole text. */
  lemma {:induction false} SplitNLengthStep(s: string, sep: char, n: nat)
    requires 2 <= n && Index(s, sep) != -1
    ensures |SplitN(s, sep, n)| == if Count(s, sep) + 1 < n then Count(s, sep) + 1 else n
    decreases n, 0
  {
    var rest := s[Index(s, sep) + 1..];
    SplitNLength(rest, sep, n - 1);
    SplitNLengthAtIndex(s, sep, n);
    CappedSucc(|SplitN(rest, sep, n - 1)|, Count(rest, sep), n);
  }

  /** SplitN yields one more field than there are separators, up to n. */
  lemma {:induction false} SplitNLength(s: string, sep: char, n: nat)
    requires 1 <= n
    ensures |SplitN(s, sep, n)| == if Count(s, sep) + 1 < n then Count(s, sep) + 1 else n
    decreases n, 1
  {
    if n > 1 && Index(s, sep) != -1 {
      SplitNLengthStep(s, sep, n);
    }
  }
}
