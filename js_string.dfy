/**
 * The ECMAScript string built-ins the email helpers rely on, restricted to
 * what those helpers use: `trim`, the `\s` character class, ASCII
 * `toLowerCase` and `split` with a one-character separator.
 */
module JsString {

  /**
   * ECMAScript WhiteSpace and LineTerminator code points. This one set is
   * what `String.prototype.trim` strips and what the regular-expression class
   * `\s` matches.
   */
  predicate IsWs(c: char) {
    var n := c as int;
    || n == 0x09 || n == 0x0A || n == 0x0B || n == 0x0C || n == 0x0D
    || n == 0x20 || n == 0xA0 || n == 0x1680
    || (0x2000 <= n <= 0x200A)
    || n == 0x2028 || n == 0x2029 || n == 0x202F || n == 0x205F
    || n == 0x3000 || n == 0xFEFF
  }

  predicate NoWs(s: string) {
    forall k | 0 <= k < |s| :: !IsWs(s[k])
  }

  predicate AllWs(s: string) {
    forall k | 0 <= k < |s| :: IsWs(s[k])
  }

  /** True when `s` neither starts nor ends with white space. */
  predicate IsTrimmed(s: string) {
    s == [] || (!IsWs(s[0]) && !IsWs(s[|s| - 1]))
  }

  // ---------------------------------------------------------------- trim

  /** Removes leading white space. */
  function TrimStart(s: string): string {
    if |s| > 0 && IsWs(s[0]) then TrimStart(s[1..]) else s
  }

  /** The result of `TrimStart` is the suffix after the longest white-space prefix. */
  lemma {:induction false} TrimStartFacts(s: string)
    ensures |TrimStart(s)| <= |s| && TrimStart(s) == s[|s| - |TrimStart(s)|..]
    ensures AllWs(s[..|s| - |TrimStart(s)|])
    ensures TrimStart(s) == [] || !IsWs(TrimStart(s)[0])
  {
    if |s| > 0 && IsWs(s[0]) {
      TrimStartFacts(s[1..]);
      var n := |s| - |TrimStart(s)|;
      assert s[1..][..n - 1] == s[1..n];
      forall k | 0 <= k < n ensures IsWs(s[..n][k]) {
        if k > 0 {
          assert s[..n][k] == s[1..][..n - 1][k - 1];
        }
      }
    } else {
      assert s[..0] == [];
    }
  }

  /** Removes trailing white space. */
  function TrimEnd(s: string): string {
    if |s| > 0 && IsWs(s[|s| - 1]) then TrimEnd(s[..|s| - 1]) else s
  }

  /** The result of `TrimEnd` is the prefix before the longest white-space suffix. */
  lemma {:induction false} TrimEndFacts(s: string)
    ensures |TrimEnd(s)| <= |s| && TrimEnd(s) == s[..|TrimEnd(s)|]
    ensures AllWs(s[|TrimEnd(s)|..])
    ensures TrimEnd(s) == [] || !IsWs(TrimEnd(s)[|TrimEnd(s)| - 1])
  {
    if |s| > 0 && IsWs(s[|s| - 1]) {
      var p := s[..|s| - 1];
      TrimEndFacts(p);
      var m := |TrimEnd(s)|;
      forall k | 0 <= k < |s| - m ensures IsWs(s[m..][k]) {
        if m + k < |s| - 1 {
          assert s[m..][k] == p[m..][k];
        }
      }
    } else {
      assert s[|s|..] == [];
    }
  }

  /** `String.prototype.trim`. */
  function Trim(s: string): (r: string)
    ensures IsTrimmed(r)
    ensures |r| <= |s|
  {
    TrimStartFacts(s);
    TrimEndFacts(TrimStart(s));
    TrimEnd(TrimStart(s))
  }

  /** What `trim` cut off on the left: `Trim(s)` sits at this offset in `s`. */
  function LeadingWs(s: string): nat {
    TrimStartFacts(s);
    |s| - |TrimStart(s)|
  }

  /** `Trim(s)` is the slice of `s` between a white-space prefix and a white-space suffix. */
  lemma TrimIsSlice(s: string)
    ensures LeadingWs(s) + |Trim(s)| <= |s|
    ensures Trim(s) == s[LeadingWs(s)..LeadingWs(s) + |Trim(s)|]
    ensures AllWs(s[..LeadingWs(s)])
    ensures AllWs(s[LeadingWs(s) + |Trim(s)|..])
  {
    var u := TrimStart(s);
    TrimStartFacts(s);
    TrimEndFacts(u);
    var i, n := |s| - |u|, |TrimEnd(u)|;
    assert u == s[i..];
    SlicesOfSuffix(s, i, n);
  }

  /** A character that is not white space survives `trim`, at its offset from the removed prefix. */
  lemma TrimKeepsNonWs(s: string, k: nat)
    requires k < |s| && !IsWs(s[k])
    ensures LeadingWs(s) <= k < LeadingWs(s) + |Trim(s)|
    ensures Trim(s)[k - LeadingWs(s)] == s[k]
  {
    TrimIsSlice(s);
  }

  /** When `s[k]` is the first character that is not white space, `trim` cuts exactly `k` characters on the left. */
  lemma TrimStartsAt(s: string, k: nat)
    requires k < |s| && !IsWs(s[k]) && AllWs(s[..k])
    ensures LeadingWs(s) == k && Trim(s) != [] && Trim(s)[0] == s[k]
  {
    TrimKeepsNonWs(s, k);
    TrimIsSlice(s);
  }

  /** `trim` introduces no character. */
  lemma TrimKeepsChars(s: string, c: char)
    ensures c in Trim(s) ==> c in s
  {
    if c in Trim(s) {
      TrimIsSlice(s);
      var k :| 0 <= k < |Trim(s)| && Trim(s)[k] == c;
      assert s[LeadingWs(s) + k] == c;
    }
  }

  /** Slicing a suffix is slicing the string. */
  lemma SlicesOfSuffix(s: string, i: nat, n: nat)
    requires i + n <= |s|
    ensures s[i..][..n] == s[i..i + n]
    ensures s[i..][n..] == s[i + n..]
  {
  }

  /** A string without surrounding white space is left alone by `trim`. */
  lemma TrimOfTrimmed(s: string)
    requires IsTrimmed(s)
    ensures Trim(s) == s
  {
  }

  /** `trim` is idempotent. */
  lemma TrimIdempotent(s: string)
    ensures Trim(Trim(s)) == Trim(s)
  {
    TrimOfTrimmed(Trim(s));
  }

  lemma {:induction false} TrimStartPadding(pre: string, s: string)
    requires AllWs(pre)
    ensures TrimStart(pre + s) == TrimStart(s)
  {
    if pre != [] {
      assert (pre + s)[0] == pre[0] && IsWs(pre[0]);
      assert (pre + s)[1..] == pre[1..] + s;
      assert AllWs(pre[1..]) by {
        forall k | 0 <= k < |pre[1..]| ensures IsWs(pre[1..][k]) { assert pre[1..][k] == pre[k + 1]; }
      }
      TrimStartPadding(pre[1..], s);
      assert TrimStart(pre + s) == TrimStart((pre + s)[1..]);
    } else {
      assert pre + s == s;
    }
  }

  lemma {:induction false} TrimEndPadding(s: string, post: string)
    requires AllWs(post)
    ensures TrimEnd(s + post) == TrimEnd(s)
  {
    if post != [] {
      assert (s + post)[|s + post| - 1] == post[|post| - 1] && IsWs(post[|post| - 1]);
      assert (s + post)[..|s + post| - 1] == s + post[..|post| - 1];
      var shorter := post[..|post| - 1];
      assert AllWs(shorter) by {
        forall k | 0 <= k < |shorter| ensures IsWs(shorter[k]) { assert shorter[k] == post[k]; }
      }
      TrimEndPadding(s, post[..|post| - 1]);
      assert TrimEnd(s + post) == TrimEnd((s + post)[..|s + post| - 1]);
    } else {
      assert s + post == s;
    }
  }

  /** Once leading white space is gone, appending a white-space suffix does not change `TrimStart`'s cut. */
  lemma {:induction false} TrimStartAppend(s: string, post: string)
    requires AllWs(post)
    ensures TrimEnd(TrimStart(s + post)) == TrimEnd(TrimStart(s))
  {
    if |s| > 0 && IsWs(s[0]) {
      assert (s + post)[1..] == s[1..] + post;
      TrimStartAppend(s[1..], post);
    } else if |s| > 0 {
      TrimEndPadding(s, post);
    } else {
      assert s + post == post;
      TrimStartPadding(post, []);
      assert post + [] == post;
    }
  }

  /** White space around a string never changes what `trim` returns. */
  lemma TrimIgnoresPadding(pre: string, s: string, post: string)
    requires AllWs(pre) && AllWs(post)
    ensures Trim(pre + s + post) == Trim(s)
  {
    assert pre + s + post == pre + (s + post);
    TrimStartPadding(pre, s + post);
    TrimStartAppend(s, post);
  }

  // ---------------------------------------------------------- lower case

  predicate IsAsciiUpper(c: char) {
    'A' <= c <= 'Z'
  }

  /** ASCII case folding, the part of `toLowerCase` this model covers. */
  function ToLowerChar(c: char): (r: char)
    ensures !IsAsciiUpper(r)
    ensures IsAsciiUpper(c) ==> r as int == c as int + 32
    ensures !IsAsciiUpper(c) ==> r == c
  {
    if IsAsciiUpper(c) then (c as int + 32) as char else c
  }

  /** `String.prototype.toLowerCase` on ASCII letters; every other character is kept. */
  function ToLower(s: string): (r: string)
    ensures |r| == |s|
    ensures forall k | 0 <= k < |s| :: r[k] == ToLowerChar(s[k])
  {
    if s == [] then [] else [ToLowerChar(s[0])] + ToLower(s[1..])
  }

  lemma ToLowerIdempotent(s: string)
    ensures ToLower(ToLower(s)) == ToLower(s)
  {
  }

  /** `a` and `b` have white space, `@` and `.` at the same positions. */
  predicate SameDelimiters(a: string, b: string) {
    && |a| == |b|
    && forall k | 0 <= k < |a| ::
         && (IsWs(a[k]) <==> IsWs(b[k]))
         && (a[k] == '@' <==> b[k] == '@')
         && (a[k] == '.' <==> b[k] == '.')
  }

  lemma SameDelimitersPrefix(a: string, b: string, i: nat)
    requires SameDelimiters(a, b) && i <= |a|
    ensures SameDelimiters(a[..i], b[..i])
  {
    forall k | 0 <= k < i ensures a[..i][k] == a[k] && b[..i][k] == b[k] {
    }
  }

  lemma SameDelimitersSuffix(a: string, b: string, i: nat)
    requires SameDelimiters(a, b) && i <= |a|
    ensures SameDelimiters(a[i..], b[i..])
  {
    forall k | 0 <= k < |a| - i ensures a[i..][k] == a[i + k] && b[i..][k] == b[i + k] {
    }
  }

  /** Lower-casing keeps white space, `@` and `.` exactly where they were. */
  lemma ToLowerKeepsDelimiters(s: string)
    ensures SameDelimiters(s, ToLower(s)) && SameDelimiters(ToLower(s), s)
  {
  }

  // --------------------------------------------------------------- split

  /** The first position of `c` in `s`. */
  function IndexOf(s: string, c: char): (i: nat)
    requires c in s
    ensures i < |s| && s[i] == c && c !in s[..i]
  {
    if s[0] == c then 0 else 1 + IndexOf(s[1..], c)
  }

  /** The number of occurrences of `c` in `s`. */
  function Count(s: string, c: char): (n: nat)
    ensures n == 0 <==> c !in s
  {
    if s == [] then 0 else (if s[0] == c then 1 else 0) + Count(s[1..], c)
  }

  lemma {:induction false} CountAppend(a: string, b: string, c: char)
    ensures Count(a + b, c) == Count(a, c) + Count(b, c)
  {
    if a != [] {
      assert (a + b)[1..] == a[1..] + b;
      CountAppend(a[1..], b, c);
    } else {
      assert a + b == b;
    }
  }

  /** `String.prototype.split` with a one-character separator. */
  function Split(s: string, sep: char): (parts: seq<string>)
    ensures |parts| >= 1
    ensures forall k | 0 <= k < |parts| :: sep !in parts[k]
    decreases |s|
  {
    if sep in s then
      var i := IndexOf(s, sep);
      [s[..i]] + Split(s[i + 1..], sep)
    else
      [s]
  }

  /** `Array.prototype.join` with a one-character separator, the inverse of `Split`. */
  function Join(parts: seq<string>, sep: char): string
    requires |parts| >= 1
  {
    if |parts| == 1 then parts[0] else parts[0] + [sep] + Join(parts[1..], sep)
  }

  lemma {:induction false} JoinSplit(s: string, sep: char)
    ensures Join(Split(s, sep), sep) == s
    decreases |s|
  {
    if sep in s {
      var i := IndexOf(s, sep);
      JoinSplit(s[i + 1..], sep);
      assert Split(s, sep)[1..] == Split(s[i + 1..], sep);
      assert s == s[..i] + [sep] + s[i + 1..];
    }
  }

  /** A position holding `c` with no `c` before it is the first position of `c`. */
  lemma IndexOfFirst(s: string, c: char, i: nat)
    requires i < |s| && s[i] == c && c !in s[..i]
    ensures IndexOf(s, c) == i
  {
  }

  /** Splitting `a + [sep] + b`, when `a` has no separator, cuts off `a` and splits `b`. */
  lemma SplitAfterFirst(a: string, b: string, sep: char)
    requires sep !in a
    ensures Split(a + [sep] + b, sep) == [a] + Split(b, sep)
  {
    var s := a + [sep] + b;
    assert s[..|a|] == a;
    assert s[|a| + 1..] == b;
    IndexOfFirst(s, sep, |a|);
  }

  lemma {:induction false} SplitJoin(parts: seq<string>, sep: char)
    requires |parts| >= 1
    requires forall k | 0 <= k < |parts| :: sep !in parts[k]
    ensures Split(Join(parts, sep), sep) == parts
  {
    if |parts| > 1 {
      SplitJoin(parts[1..], sep);
      SplitAfterFirst(parts[0], Join(parts[1..], sep), sep);
      assert parts == [parts[0]] + parts[1..];
    }
  }

  /** Cutting at the first separator removes exactly one occurrence. */
  lemma CountAfterFirst(s: string, sep: char)
    requires sep in s
    ensures Count(s, sep) == Count(s[IndexOf(s, sep) + 1..], sep) + 1
  {
    var i := IndexOf(s, sep);
    var a, b := s[..i], s[i + 1..];
    assert s == a + ([sep] + b);
    CountAppend(a, [sep] + b, sep);
    assert ([sep] + b)[1..] == b;
  }

  /** Cutting at the first separator removes exactly one part. */
  lemma SplitAfterIndex(s: string, sep: char)
    requires sep in s
    ensures |Split(s, sep)| == |Split(s[IndexOf(s, sep) + 1..], sep)| + 1
  {
  }

  lemma SplitWithout(s: string, sep: char)
    requires sep !in s
    ensures |Split(s, sep)| == 1 && Count(s, sep) == 0
  {
  }

  /** `split` returns one more part than there are separators. */
  lemma {:induction false} SplitLength(s: string, sep: char)
    ensures |Split(s, sep)| == Count(s, sep) + 1
    decreases |s|
  {
    if sep in s {
      var rest := s[IndexOf(s, sep) + 1..];
      SplitLength(rest, sep);
      SplitAfterIndex(s, sep);
      CountAfterFirst(s, sep);
    } else {
      SplitWithout(s, sep);
    }
  }

  /** With exactly one separator, `split` cuts around it. */
  lemma SplitAtSingle(s: string, sep: char)
    requires Count(s, sep) == 1
    ensures sep in s
    ensures Split(s, sep) == [s[..IndexOf(s, sep)], s[IndexOf(s, sep) + 1..]]
  {
    SplitLength(s, sep);
    var i := IndexOf(s, sep);
    SplitLength(s[i + 1..], sep);
  }
}
