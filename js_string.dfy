/**
 * The JavaScript built-ins the application applies to strings and arrays:
 * `trim`, `indexOf`, `startsWith`, `endsWith`, `replace` with a string pattern,
 * `split` with a literal separator, `join`, `slice` and `Array.prototype.filter`.
 * A string is a sequence of characters.
 */
module JsString {
  import opened Wrappers

  /** The characters `trim` removes and `\s` matches: the WhiteSpace and
      LineTerminator code points of sections 12.2 and 12.3 of ECMA-262. */
  predicate IsWhitespace(c: char) {
    var n := c as int;
    n == 0x09 || n == 0x0A || n == 0x0B || n == 0x0C || n == 0x0D || n == 0x20 ||
    n == 0xA0 || n == 0x1680 || (0x2000 <= n <= 0x200A) || n == 0x2028 || n == 0x2029 ||
    n == 0x202F || n == 0x205F || n == 0x3000 || n == 0xFEFF
  }

  /** `s.trim()` is falsy, i.e. the empty string. */
  predicate IsBlank(s: string) {
    forall i :: 0 <= i < |s| ==> IsWhitespace(s[i])
  }

  /** The predicate `filter` is given as `qa => qa.trim()` and `line => line.trim() !== ''`. */
  predicate HasContent(s: string) {
    !IsBlank(s)
  }

  /** Neither end of `s` is whitespace. */
  predicate IsTrimmed(s: string) {
    s == [] || (!IsWhitespace(s[0]) && !IsWhitespace(s[|s| - 1]))
  }

  /** The index of the first character at or after `i` that is not whitespace, or `|s|`. */
  function SkipWhitespace(s: string, i: nat): (k: nat)
    requires i <= |s|
    ensures i <= k <= |s|
    ensures forall m :: i <= m < k ==> IsWhitespace(s[m])
    ensures k < |s| ==> !IsWhitespace(s[k])
    decreases |s| - i
  {
    if i < |s| && IsWhitespace(s[i]) then SkipWhitespace(s, i + 1) else i
  }

  /** The end of `s[lo..j]` once its trailing whitespace is dropped. */
  function DropTrailingWhitespace(s: string, lo: nat, j: nat): (k: nat)
    requires lo <= j <= |s|
    ensures lo <= k <= j
    ensures forall m :: k <= m < j ==> IsWhitespace(s[m])
    ensures lo < k ==> !IsWhitespace(s[k - 1])
    decreases j
  {
    if lo < j && IsWhitespace(s[j - 1]) then DropTrailingWhitespace(s, lo, j - 1) else j
  }

  /** The number of whitespace characters `s` starts with. */
  function LeadingWhitespace(s: string): (k: nat)
    ensures k <= |s|
    ensures forall i :: 0 <= i < k ==> IsWhitespace(s[i])
    ensures k < |s| ==> !IsWhitespace(s[k])
  {
    SkipWhitespace(s, 0)
  }

  /** `s.trim()`: the part of `s` between its leading and its trailing whitespace. */
  function Trim(s: string): (r: string)
    ensures IsTrimmed(r)
    ensures r == [] <==> IsBlank(s)
    ensures LeadingWhitespace(s) + |r| <= |s|
    ensures r == s[LeadingWhitespace(s)..LeadingWhitespace(s) + |r|]
    ensures forall i :: LeadingWhitespace(s) + |r| <= i < |s| ==> IsWhitespace(s[i])
  {
    var lead := LeadingWhitespace(s);
    var end := DropTrailingWhitespace(s, lead, |s|);
    assert lead < end ==> lead < |s| && !IsWhitespace(s[lead]);
    s[lead..end]
  }

  /** An occurrence in the trimmed string is an occurrence in the original, past its leading whitespace. */
  lemma TrimOccurrence(s: string, pat: string, j: int)
    requires OccursAt(Trim(s), pat, j)
    ensures OccursAt(s, pat, LeadingWhitespace(s) + j)
  {
    var lead := LeadingWhitespace(s);
    OccursInSlice(s, lead, lead + |Trim(s)|, pat, j);
  }

  /** An occurrence in a slice is an occurrence in the whole string, shifted. */
  lemma OccursInSlice(s: string, a: nat, b: nat, pat: string, j: int)
    requires a <= b <= |s| && OccursAt(s[a..b], pat, j)
    ensures OccursAt(s, pat, a + j)
  {
    SliceOfSlice(s, a, b, j, j + |pat|);
  }

  /** A slice of a slice is a slice of the original. */
  lemma SliceOfSlice(s: string, a: nat, b: nat, c: nat, d: nat)
    requires a <= b <= |s| && c <= d <= b - a
    ensures s[a..b][c..d] == s[a + c..a + d]
  {
    var t := s[a..b][c..d];
    forall i | 0 <= i < |t| ensures t[i] == s[a + c + i] {
      assert t[i] == s[a..b][c + i];
    }
  }

  /** An occurrence that lies inside the middle part of `a + b + c` is an
      occurrence in `b`, and the other way round. */
  lemma OccursInMiddle(a: string, b: string, c: string, pat: string, j: int)
    requires |a| <= j && j + |pat| <= |a| + |b|
    ensures OccursAt(a + b + c, pat, j) <==> OccursAt(b, pat, j - |a|)
  {
    assert (a + b + c)[j..j + |pat|] == b[j - |a|..j - |a| + |pat|];
  }

  /** The middle of three strings occurs where the first one ends. */
  lemma OccursBetween(a: string, b: string, c: string)
    ensures OccursAt(a + b + c, b, |a|)
  {
    assert (a + b + c)[|a|..|a| + |b|] == b;
  }

  /** Trimming keeps a prefix whose first and last characters are not whitespace. */
  lemma TrimKeepsPrefix(s: string, pat: string)
    requires StartsWith(s, pat) && |pat| > 0
    requires !IsWhitespace(pat[0]) && !IsWhitespace(pat[|pat| - 1])
    ensures StartsWith(Trim(s), pat)
  {
    assert s[0] == pat[0] && s[|pat| - 1] == pat[|pat| - 1];
    var r := Trim(s);
    assert LeadingWhitespace(s) == 0;
    assert |r| >= |pat|;
    assert r[..|pat|] == s[..|pat|];
  }

  /** `pat` occurs in `s` at index `i`. */
  predicate OccursAt(s: string, pat: string, i: int) {
    0 <= i && i + |pat| <= |s| && s[i..i + |pat|] == pat
  }

  /** `s.includes(pat)`. */
  predicate Contains(s: string, pat: string) {
    exists i :: 0 <= i <= |s| && OccursAt(s, pat, i)
  }

  /** `s.startsWith(pat)`. */
  predicate StartsWith(s: string, pat: string): (b: bool)
    ensures b <==> |pat| <= |s| && forall i :: 0 <= i < |pat| ==> s[i] == pat[i]
  {
    OccursAt(s, pat, 0)
  }

  /** `s.endsWith(pat)`. */
  predicate EndsWith(s: string, pat: string): (b: bool)
    ensures b <==> |pat| <= |s| && forall i :: 0 <= i < |pat| ==> s[|s| - |pat| + i] == pat[i]
  {
    |pat| <= |s| && OccursAt(s, pat, |s| - |pat|)
  }

  /** `i` is where the leftmost occurrence of `pat` in `s` starts. */
  predicate IsFirstOccurrence(s: string, pat: string, i: int) {
    OccursAt(s, pat, i) && forall j :: 0 <= j < i ==> !OccursAt(s, pat, j)
  }

  /** An occurrence in a suffix is an occurrence in the whole string, shifted. */
  lemma OccursInSuffix(s: string, pat: string, k: nat, i: int)
    requires k <= |s| && 0 <= i
    ensures OccursAt(s[k..], pat, i) <==> OccursAt(s, pat, k + i)
  {
    if 0 <= i && i + |pat| <= |s| - k {
      assert s[k..][i..i + |pat|] == s[k + i..k + i + |pat|];
    }
  }

  /** The same, for every position at once. */
  lemma OccursInSuffixEverywhere(s: string, pat: string, k: nat)
    requires k <= |s|
    ensures forall i :: 0 <= i ==> (OccursAt(s[k..], pat, i) <==> OccursAt(s, pat, k + i))
  {
    forall i | 0 <= i ensures OccursAt(s[k..], pat, i) <==> OccursAt(s, pat, k + i) {
      OccursInSuffix(s, pat, k, i);
    }
  }

  /** An occurrence that ends inside a prefix is an occurrence in the whole string. */
  lemma OccursInPrefix(s: string, pat: string, k: nat, i: int)
    requires k <= |s| && i + |pat| <= k
    ensures OccursAt(s[..k], pat, i) <==> OccursAt(s, pat, i)
  {
    if 0 <= i {
      assert s[..k][i..i + |pat|] == s[i..i + |pat|];
    }
  }

  /** The same, for every position at once. */
  lemma OccursInPrefixEverywhere(s: string, pat: string, k: nat)
    requires k <= |s|
    ensures forall i :: i + |pat| <= k ==> (OccursAt(s[..k], pat, i) <==> OccursAt(s, pat, i))
  {
    forall i | i + |pat| <= k ensures OccursAt(s[..k], pat, i) <==> OccursAt(s, pat, i) {
      OccursInPrefix(s, pat, k, i);
    }
  }

  /** An occurrence starts with the pattern's first character. */
  lemma OccursAtFirstChar(s: string, pat: string, i: int)
    ensures OccursAt(s, pat, i) && |pat| > 0 ==> s[i] == pat[0]
  {
    if OccursAt(s, pat, i) && |pat| > 0 {
      assert s[i..i + |pat|][0] == s[i];
    }
  }

  /** `s.indexOf(pat)`, with `None` for JavaScript's -1. */
  function IndexOf(s: string, pat: string): (r: Option<nat>)
    ensures r.Some? ==> IsFirstOccurrence(s, pat, r.value)
    ensures r.None? ==> !Contains(s, pat)
    decreases |s|
  {
    if OccursAt(s, pat, 0) then Some(0)
    else if |s| == 0 then None
    else
      match IndexOf(s[1..], pat)
      case None =>
        assert !Contains(s, pat) by {
          forall i | 1 <= i <= |s| ensures !OccursAt(s, pat, i) {
            OccursInSuffix(s, pat, 1, i - 1);
          }
        }
        None
      case Some(j) =>
        assert IsFirstOccurrence(s, pat, j + 1) by {
          OccursInSuffix(s, pat, 1, j);
          forall m | 0 < m < j + 1 ensures !OccursAt(s, pat, m) {
            OccursInSuffix(s, pat, 1, m - 1);
          }
        }
        Some(j + 1)
  }

  /** `s.replace(pat, rep)` with a string pattern and a replacement without `$`
      patterns: only the leftmost occurrence of `pat` is replaced, wherever it is. */
  function ReplaceFirst(s: string, pat: string, rep: string): (r: string)
    ensures !Contains(s, pat) ==> r == s
    ensures forall i :: IsFirstOccurrence(s, pat, i) ==> r == s[..i] + rep + s[i + |pat|..]
  {
    match IndexOf(s, pat)
    case None => s
    case Some(i) => s[..i] + rep + s[i + |pat|..]
  }

  /** `parts.join(sep)`. */
  function Join(parts: seq<string>, sep: string): (r: string)
    ensures |parts| == 0 ==> r == ""
    ensures |parts| >= 1 ==> |parts[0]| <= |r| && r[..|parts[0]|] == parts[0]
    ensures |parts| >= 2 ==> OccursAt(r, sep, |parts[0]|)
  {
    if |parts| == 0 then ""
    else if |parts| == 1 then parts[0]
    else parts[0] + sep + Join(parts[1..], sep)
  }

  /** The concatenation of `parts`, in order. */
  function Concat(parts: seq<string>): string {
    if |parts| == 0 then "" else parts[0] + Concat(parts[1..])
  }

  lemma {:induction false} JoinExtendFirst(c: char, parts: seq<string>, sep: string)
    requires |parts| >= 1
    ensures Join([[c] + parts[0]] + parts[1..], sep) == [c] + Join(parts, sep)
  {
    var joined := [[c] + parts[0]] + parts[1..];
    if |parts| > 1 {
      assert joined[1..] == parts[1..];
    }
  }

  /** `s.split(sep)` with a non-empty literal separator: the pieces between the
      non-overlapping occurrences of `sep`, found from the left. */
  function Split(s: string, sep: string): (r: seq<string>)
    requires |sep| > 0
    ensures |r| >= 1
    ensures Join(r, sep) == s
    ensures |r[0]| <= |s| && r[0] == s[..|r[0]|]
    ensures forall k :: 0 <= k < |r| ==> !Contains(r[k], sep)
    decreases |s|
  {
    if OccursAt(s, sep, 0) then
      var rest := Split(s[|sep|..], sep);
      SplitCutStep(s, sep, rest);
      [""] + rest
    else if |s| == 0 then [""]
    else
      var rest := Split(s[1..], sep);
      SplitExtendStep(s, sep, rest);
      [[s[0]] + rest[0]] + rest[1..]
  }

  /** `r` is a split of `s` on `sep`: the pieces join back to `s`, the first is
      a prefix of `s`, and no piece holds the separator. */
  ghost predicate IsSplitOf(s: string, sep: string, r: seq<string>) {
    && |r| >= 1 && Join(r, sep) == s
    && |r[0]| <= |s| && r[0] == s[..|r[0]|]
    && forall k :: 0 <= k < |r| ==> !Contains(r[k], sep)
  }

  /** A separator at the start gives an empty first piece. */
  lemma SplitCutStep(s: string, sep: string, rest: seq<string>)
    requires |sep| > 0 && OccursAt(s, sep, 0) && IsSplitOf(s[|sep|..], sep, rest)
    ensures IsSplitOf(s, sep, [""] + rest)
  {
    assert s == sep + s[|sep|..];
    assert ([""] + rest)[1..] == rest;
    assert !Contains("", sep);
    forall k | 1 <= k < |rest| + 1 ensures ([""] + rest)[k] == rest[k - 1] { }
  }

  /** Without a separator at the start, the first character joins the first piece. */
  lemma SplitExtendStep(s: string, sep: string, rest: seq<string>)
    requires |sep| > 0 && |s| > 0 && !OccursAt(s, sep, 0) && IsSplitOf(s[1..], sep, rest)
    ensures IsSplitOf(s, sep, [[s[0]] + rest[0]] + rest[1..])
  {
    var first := [s[0]] + rest[0];
    var r := [first] + rest[1..];
    JoinExtendFirst(s[0], rest, sep);
    assert first == s[..|first|];
    assert !Contains(first, sep) by {
      forall i | 0 <= i <= |first| ensures !OccursAt(first, sep, i) {
        if i == 0 {
          if |sep| <= |first| {
            OccursInPrefix(s, sep, |first|, 0);
          }
        } else {
          assert first[1..] == rest[0];
          OccursInSuffix(first, sep, 1, i - 1);
        }
      }
    }
    forall k | 1 <= k < |r| ensures r[k] == rest[k] { }
  }

  /** A string without the separator is a single piece. */
  lemma {:induction false} SplitWithoutSeparator(s: string, sep: string)
    requires |sep| > 0 && !Contains(s, sep)
    ensures Split(s, sep) == [s]
    decreases |s|
  {
    assert !OccursAt(s, sep, 0);
    if |s| > 0 {
      OccursInSuffixEverywhere(s, sep, 1);
      SplitWithoutSeparator(s[1..], sep);
      assert [s[0]] + s[1..] == s;
    }
  }

  /** The first piece is everything before the leftmost separator; the other
      pieces are those of the text after it. */
  lemma {:induction false} SplitAtFirst(s: string, sep: string, i: nat)
    requires |sep| > 0 && IsFirstOccurrence(s, sep, i)
    ensures Split(s, sep) == [s[..i]] + Split(s[i + |sep|..], sep)
    decreases i
  {
    if i > 0 {
      var t := s[1..];
      OccursInSuffix(s, sep, 1, i - 1);
      forall j | 0 <= j < i - 1 ensures !OccursAt(t, sep, j) {
        OccursInSuffix(s, sep, 1, j);
      }
      SplitAtFirst(t, sep, i - 1);
      SplitUnfoldExtend(s, sep);
      var rest := Split(t, sep);
      assert rest[0] == t[..i - 1];
      assert rest[1..] == Split(t[i - 1 + |sep|..], sep);
      assert t[i - 1 + |sep|..] == s[i + |sep|..];
      assert [s[0]] + t[..i - 1] == s[..i];
    }
  }

  /** One step of `Split` when the text does not start with the separator. */
  lemma SplitUnfoldExtend(s: string, sep: string)
    requires |sep| > 0 && |s| > 0 && !OccursAt(s, sep, 0)
    ensures Split(s, sep) == [[s[0]] + Split(s[1..], sep)[0]] + Split(s[1..], sep)[1..]
  {
  }

  /** The number of positions at which `pat` occurs in `s`. */
  function Count(s: string, pat: string): nat
    decreases |s|
  {
    if |s| == 0 then 0 else (if OccursAt(s, pat, 0) then 1 else 0) + Count(s[1..], pat)
  }

  /** Splitting on one character gives one piece more than there are occurrences of it. */
  lemma {:induction false} SplitOnCharCount(s: string, c: char)
    ensures |Split(s, [c])| == Count(s, [c]) + 1
    decreases |s|
  {
    if |s| > 0 {
      SplitOnCharCount(s[1..], c);
    }
  }

  /** The pieces of a split on one character are the only pieces free of that
      character that join back to the text. */
  lemma {:induction false} SplitOnCharUnique(s: string, c: char, parts: seq<string>)
    requires |parts| >= 1 && Join(parts, [c]) == s
    requires forall k :: 0 <= k < |parts| ==> !Contains(parts[k], [c])
    ensures Split(s, [c]) == parts
    decreases |parts|
  {
    if |parts| == 1 {
      SplitWithoutSeparator(s, [c]);
    } else {
      var n := |parts[0]|;
      assert s == parts[0] + [c] + Join(parts[1..], [c]);
      assert OccursAt(s, [c], n);
      forall j | 0 <= j < n ensures !OccursAt(s, [c], j) {
        OccursInPrefix(s, [c], n, j);
        assert s[..n] == parts[0];
      }
      SplitAtFirst(s, [c], n);
      assert s[..n] == parts[0];
      assert s[n + 1..] == Join(parts[1..], [c]);
      SplitOnCharUnique(s[n + 1..], c, parts[1..]);
    }
  }

  /** The position `slice` uses for `k`: a negative one counts back from the end. */
  function SlicePosition(k: int, len: nat): (r: nat)
    ensures r <= len
    ensures 0 <= k <= len ==> r == k
    ensures k < 0 && 0 <= len + k ==> r == len + k
  {
    if k < 0 then (if len + k < 0 then 0 else len + k) else if k > len then len else k
  }

  /** `s.slice(start, end)`: empty when the start position is not before the end position. */
  function Slice(s: string, start: int, end: int): (r: string)
    ensures 0 <= start && end < 0 && start <= |s| + end ==> r == s[start..|s| + end]
    ensures start >= 0 && |s| + end <= start ==> r == ""
  {
    var from := SlicePosition(start, |s|);
    var to := SlicePosition(end, |s|);
    if from < to then s[from..to] else ""
  }

  /** `xs.filter(keep)`. */
  function Filter<T>(xs: seq<T>, keep: T -> bool): (r: seq<T>)
    ensures |r| <= |xs|
    ensures forall k :: 0 <= k < |r| ==> keep(r[k]) && r[k] in xs
    ensures forall x :: x in xs && keep(x) ==> x in r
  {
    if |xs| == 0 then [] else (if keep(xs[0]) then [xs[0]] else []) + Filter(xs[1..], keep)
  }

  /** Filtering keeps the order: it distributes over concatenation. */
  lemma {:induction false} FilterAppend<T>(a: seq<T>, b: seq<T>, keep: T -> bool)
    ensures Filter(a + b, keep) == Filter(a, keep) + Filter(b, keep)
    decreases |a|
  {
    if |a| > 0 {
      assert (a + b)[1..] == a[1..] + b;
      FilterAppend(a[1..], b, keep);
    } else {
      assert a + b == b;
    }
  }
}
