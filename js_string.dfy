/** The JavaScript `String` operations that the QRIS rewrite and the checksum
    formatting rely on, over strings as sequences of characters.  Each function
    follows the ECMAScript definition of the builtin it is named after, for the
    arguments the service passes to it; the parsing functions at the end are
    the inverses used to state round trips. */
module JsString {

  // ---------------------------------------------------------------------------
  // Searching

  /** `pat` occurs in `s` starting at index `j`. */
  predicate OccursAt(s: string, pat: string, j: int) {
    0 <= j && j + |pat| <= |s| && s[j..j + |pat|] == pat
  }

  /** `pat` occurs somewhere in `s`. */
  ghost predicate Contains(s: string, pat: string) {
    exists j :: OccursAt(s, pat, j)
  }

  lemma OccursAtTail(s: string, pat: string, j: nat)
    requires |s| > 0
    ensures OccursAt(s[1..], pat, j) <==> OccursAt(s, pat, j + 1)
  {
    if j + |pat| <= |s| - 1 {
      assert s[1..][j..j + |pat|] == s[j + 1..j + 1 + |pat|];
    }
  }

  /** `s.indexOf(pat)`: the first index at which `pat` occurs, or -1. */
  function IndexOf(s: string, pat: string): (r: int)
    ensures -1 <= r <= |s|
    ensures r >= 0 ==> OccursAt(s, pat, r)
    ensures forall j :: 0 <= j && (r < 0 || j < r) ==> !OccursAt(s, pat, j)
    decreases |s|
  {
    if |s| < |pat| then -1
    else if s[..|pat|] == pat then 0
    else
      var k := IndexOf(s[1..], pat);
      assert !OccursAt(s, pat, 0);
      assert forall j :: 0 < j ==> (OccursAt(s, pat, j) <==> OccursAt(s[1..], pat, j - 1)) by {
        forall j | 0 < j ensures OccursAt(s, pat, j) <==> OccursAt(s[1..], pat, j - 1) {
          OccursAtTail(s, pat, j - 1);
        }
      }
      if k < 0 then -1 else k + 1
  }

  lemma IndexOfContains(s: string, pat: string)
    ensures IndexOf(s, pat) >= 0 <==> Contains(s, pat)
  {
    if IndexOf(s, pat) >= 0 {
      assert OccursAt(s, pat, IndexOf(s, pat));
    }
  }

  /** An occurrence inside a prefix of `s` is an occurrence in `s`. */
  lemma OccursInPrefix(s: string, pat: string, n: nat, j: int)
    requires n <= |s|
    ensures OccursAt(s[..n], pat, j) ==> OccursAt(s, pat, j)
  {
    if OccursAt(s[..n], pat, j) {
      assert s[..n][j..j + |pat|] == s[j..j + |pat|];
    }
  }

  /** An occurrence inside a suffix of `s` is an occurrence in `s`, shifted. */
  lemma OccursInSuffix(s: string, pat: string, n: nat, j: int)
    requires n <= |s|
    ensures OccursAt(s[n..], pat, j) <==> j >= 0 && OccursAt(s, pat, n + j)
  {
    if 0 <= j && j + |pat| <= |s| - n {
      assert s[n..][j..j + |pat|] == s[n + j..n + j + |pat|];
    }
  }

  // ---------------------------------------------------------------------------
  // Slicing

  function Max(a: int, b: int): int { if a < b then b else a }

  function Min(a: int, b: int): int { if a < b then a else b }

  /** How `slice` reads a position: negative counts from the end; the result is clamped to `[0, len]`. */
  function RelativeIndex(k: int, len: nat): (r: nat)
    ensures r <= len
  {
    if k < 0 then Max(len + k, 0) else Min(k, len)
  }

  /** `s.slice(start, end)`. */
  function Slice(s: string, start: int, end: int): (r: string)
    ensures |r| == Max(RelativeIndex(end, |s|) - RelativeIndex(start, |s|), 0)
    ensures forall k :: 0 <= k < |r| ==> r[k] == s[RelativeIndex(start, |s|) + k]
  {
    var from, to := RelativeIndex(start, |s|), RelativeIndex(end, |s|);
    if from >= to then [] else s[from..to]
  }

  /** `s.slice(0, -n)` keeps everything except the last `n` characters. */
  lemma SliceDropLast(s: string, n: nat)
    requires n > 0
    ensures Slice(s, 0, -(n as int)) == s[..Max(|s| - n, 0)]
  {
  }

  // ---------------------------------------------------------------------------
  // Replacing

  /** `s.replace(pat, rep)` with a string pattern: only the first occurrence is
      replaced, and `rep` is inserted literally. */
  function ReplaceFirst(s: string, pat: string, rep: string): string
  {
    var i := IndexOf(s, pat);
    if i < 0 then s else s[..i] + rep + s[i + |pat|..]
  }

  /** Without an occurrence, `replace` returns its input unchanged. */
  lemma ReplaceFirstNoMatch(s: string, pat: string, rep: string)
    requires !Contains(s, pat)
    ensures ReplaceFirst(s, pat, rep) == s
  {
    IndexOfContains(s, pat);
  }

  /** With an occurrence, the text before the first one is kept (and holds no
      occurrence), `rep` stands in its place, and every later occurrence
      survives, shifted by the difference in length. */
  lemma {:induction false} ReplaceFirstMatch(s: string, pat: string, rep: string, i: nat)
    requires OccursAt(s, pat, i)
    requires forall j :: 0 <= j < i ==> !OccursAt(s, pat, j)
    ensures ReplaceFirst(s, pat, rep) == s[..i] + rep + s[i + |pat|..]
    ensures forall j :: 0 <= j < i ==> !OccursAt(s[..i], pat, j)
    ensures forall j :: i + |pat| <= j && OccursAt(s, pat, j) ==>
              OccursAt(ReplaceFirst(s, pat, rep), pat, j - |pat| + |rep|)
  {
    assert IndexOf(s, pat) == i;
    var r := s[..i] + rep + s[i + |pat|..];
    forall j | 0 <= j < i
      ensures !OccursAt(s[..i], pat, j)
    {
      OccursInPrefix(s, pat, i, j);
    }
    forall j | i + |pat| <= j && OccursAt(s, pat, j)
      ensures OccursAt(r, pat, j - |pat| + |rep|)
    {
      var t := s[i + |pat|..];
      OccursInSuffix(s, pat, i + |pat|, j - i - |pat|);
      assert r == (s[..i] + rep) + t;
      OccursInSuffix(r, pat, i + |rep|, j - i - |pat|);
      assert r[i + |rep|..] == t;
    }
  }

  // ---------------------------------------------------------------------------
  // Splitting

  /** `s.split(sep)` with a non-empty string separator and no limit: the text
      before the first occurrence of `sep`, then the split of the rest. */
  function Split(s: string, sep: string): (r: seq<string>)
    requires |sep| > 0
    ensures |r| >= 1
    decreases |s|
  {
    var i := IndexOf(s, sep);
    if i < 0 then [s]
    else [s[..i]] + Split(s[i + |sep|..], sep)
  }

  /** One step of `split`: the whole string when the separator does not
      occur, otherwise the text before its first occurrence `i` and the split
      of the rest. */
  lemma SplitNone(s: string, sep: string)
    requires |sep| > 0 && IndexOf(s, sep) < 0
    ensures Split(s, sep) == [s]
  {
  }

  lemma SplitAt(s: string, sep: string, i: int)
    requires |sep| > 0 && i == IndexOf(s, sep) && i >= 0
    ensures Split(s, sep) == [s[..i]] + Split(s[i + |sep|..], sep)
  {
  }

  /** `split` yields a single piece exactly when the separator does not occur,
      and its first piece is the text up to the first occurrence. */
  lemma SplitFirst(s: string, sep: string)
    requires |sep| > 0
    ensures |Split(s, sep)| == 1 <==> !Contains(s, sep)
    ensures Split(s, sep)[0] == UpToNext(s, sep)
  {
    var i := IndexOf(s, sep);
    IndexOfContains(s, sep);
    if i < 0 {
      SplitNone(s, sep);
    } else {
      SplitAt(s, sep, i);
    }
  }

  /** The text before the first occurrence does not contain the pattern. */
  lemma BeforeFirstFree(s: string, pat: string, i: nat)
    requires |pat| > 0 && i <= |s|
    requires forall j :: 0 <= j < i ==> !OccursAt(s, pat, j)
    ensures !Contains(s[..i], pat)
  {
    forall j ensures !OccursAt(s[..i], pat, j) {
      OccursInPrefix(s, pat, i, j);
    }
  }

  /** No piece that `split` yields contains the separator. */
  lemma {:induction false} SplitPiecesFree(s: string, sep: string, k: nat)
    requires |sep| > 0 && k < |Split(s, sep)|
    ensures !Contains(Split(s, sep)[k], sep)
    decreases |s|
  {
    var i := IndexOf(s, sep);
    if i < 0 {
      SplitNone(s, sep);
      IndexOfContains(s, sep);
    } else {
      var t := s[i + |sep|..];
      var pieces := Split(s, sep);
      assert pieces == [s[..i]] + Split(t, sep) by { SplitAt(s, sep, i); }
      if k == 0 {
        BeforeFirstFree(s, sep, i);
      } else {
        assert pieces[k] == Split(t, sep)[k - 1];
        SplitPiecesFree(t, sep, k - 1);
      }
    }
  }

  /** `pieces.join(sep)`, the partner of `Split`. */
  function Join(pieces: seq<string>, sep: string): string
  {
    if |pieces| == 0 then []
    else if |pieces| == 1 then pieces[0]
    else pieces[0] + sep + Join(pieces[1..], sep)
  }

  /** Splitting on a non-empty separator loses nothing: joining the pieces back
      with that separator gives the original string. */
  lemma {:induction false} SplitJoin(s: string, sep: string)
    requires |sep| > 0
    ensures Join(Split(s, sep), sep) == s
    decreases |s|
  {
    var i := IndexOf(s, sep);
    if i < 0 {
      SplitNone(s, sep);
    } else {
      var t := s[i + |sep|..];
      SplitAt(s, sep, i);
      SplitJoin(t, sep);
      var rest := Split(t, sep);
      var pieces := Split(s, sep);
      assert pieces[1..] == rest;
      assert Join(pieces, sep) == s[..i] + sep + Join(rest, sep);
      assert s[i..i + |sep|] == sep;
      SplitAround(s, i, |sep|);
    }
  }

  lemma SplitAround(s: string, i: nat, n: nat)
    requires i + n <= |s|
    ensures s == s[..i] + s[i..i + n] + s[i + n..]
  {
  }

  /** The text up to the first occurrence of `sep`, or all of `s` without one. */
  function UpToNext(s: string, sep: string): string
  {
    var j := IndexOf(s, sep);
    if j < 0 then s else s[..j]
  }

  /** When the next occurrence after position `n` is at `n + j`, the piece
      after `n` runs up to it. */
  lemma UpToNextAt(s: string, sep: string, n: nat, j: nat)
    requires n <= |s| && OccursAt(s, sep, n + j)
    requires forall k :: n <= k < n + j ==> !OccursAt(s, sep, k)
    ensures UpToNext(s[n..], sep) == s[n..n + j]
  {
    var t := s[n..];
    OccursInSuffix(s, sep, n, j);
    forall k | 0 <= k < j ensures !OccursAt(t, sep, k) {
      OccursInSuffix(s, sep, n, k);
    }
    assert IndexOf(t, sep) == j;
  }

  /** The second piece of `split` is the text between the first occurrence and
      the second (or the end). */
  lemma SplitSecond(s: string, sep: string, i: int)
    requires |sep| > 0 && i == IndexOf(s, sep) && i >= 0
    ensures |Split(s, sep)| >= 2
    ensures Split(s, sep)[1] == UpToNext(s[i + |sep|..], sep)
  {
    var t := s[i + |sep|..];
    var rest := Split(t, sep);
    assert Split(s, sep) == [s[..i]] + rest by { SplitAt(s, sep, i); }
    assert rest[0] == UpToNext(t, sep) by { SplitFirst(t, sep); }
  }

  // ---------------------------------------------------------------------------
  // Trimming

  /** The characters `trim` removes: ECMAScript WhiteSpace (tab, vertical tab,
      form feed, zero-width no-break space and the Unicode space separators)
      and LineTerminator (line feed, carriage return, line and paragraph
      separators). */
  predicate IsWhitespace(c: char) {
    var u := c as int;
    u == 0x09 || u == 0x0B || u == 0x0C || u == 0x20 || u == 0xA0 || u == 0xFEFF ||
    u == 0x1680 || 0x2000 <= u <= 0x200A || u == 0x202F || u == 0x205F || u == 0x3000 ||
    u == 0x0A || u == 0x0D || u == 0x2028 || u == 0x2029
  }

  /** Leading whitespace removed: the longest suffix of `s` that does not start with whitespace. */
  function TrimStart(s: string): (r: string)
    ensures |r| <= |s| && r == s[|s| - |r|..]
    ensures forall k :: 0 <= k < |s| - |r| ==> IsWhitespace(s[k])
    ensures |r| > 0 ==> !IsWhitespace(r[0])
  {
    if |s| > 0 && IsWhitespace(s[0]) then TrimStart(s[1..]) else s
  }

  /** Trailing whitespace removed: the longest prefix of `s` that does not end with whitespace. */
  function TrimEnd(s: string): (r: string)
    ensures |r| <= |s| && r == s[..|r|]
    ensures forall k :: |r| <= k < |s| ==> IsWhitespace(s[k])
    ensures |r| > 0 ==> !IsWhitespace(r[|r| - 1])
  {
    if |s| > 0 && IsWhitespace(s[|s| - 1]) then TrimEnd(s[..|s| - 1]) else s
  }

  predicate AllWhitespace(s: string) {
    forall k :: 0 <= k < |s| ==> IsWhitespace(s[k])
  }

  /** `s.trim()`. */
  function Trim(s: string): (r: string)
    ensures |r| > 0 ==> !IsWhitespace(r[0]) && !IsWhitespace(r[|r| - 1])
  {
    TrimEnd(TrimStart(s))
  }

  /** `trim` leaves a string without surrounding whitespace unchanged; hence
      trimming twice is trimming once. */
  lemma TrimUnchanged(s: string)
    requires |s| > 0 ==> !IsWhitespace(s[0]) && !IsWhitespace(s[|s| - 1])
    ensures Trim(s) == s
  {
  }

  lemma TrimIdempotent(s: string)
    ensures Trim(Trim(s)) == Trim(s)
  {
    TrimUnchanged(Trim(s));
  }

  /** The last `n` characters of a concatenation come from its second part when that is long enough. */
  lemma SuffixOfConcat(a: string, b: string, n: nat)
    requires n <= |b|
    ensures (a + b)[|a + b| - n..] == b[|b| - n..]
  {
    assert (a + b)[|a + b| - n..] == (a + b)[|a| + (|b| - n)..];
  }

  /** `trim` keeps a suffix that neither starts nor ends with whitespace. */
  lemma TrimKeepsSuffix(s: string, t: string)
    requires 0 < |t| <= |s| && s[|s| - |t|..] == t
    requires !IsWhitespace(t[0]) && !IsWhitespace(t[|t| - 1])
    ensures |t| <= |Trim(s)| && Trim(s)[|Trim(s)| - |t|..] == t
  {
    var k := |s| - |t|;
    assert !IsWhitespace(s[k]) && !IsWhitespace(s[|s| - 1]) by {
      assert s[k] == s[k..][0] && s[|s| - 1] == s[k..][|t| - 1];
    }
    var n := |s| - |TrimStart(s)|;
    assert n <= k by { TrimStartBefore(s, k); }
    assert Trim(s) == s[n..] by { TrimToLast(s); }
    assert s[n..][|s| - n - |t|..] == s[k..];
  }

  /** Leading whitespace stops at the first character that is not whitespace. */
  lemma TrimStartBefore(s: string, k: nat)
    requires k < |s| && !IsWhitespace(s[k])
    ensures |s| - |TrimStart(s)| <= k
  {
    WhitespaceBefore(s, |s| - |TrimStart(s)|, k);
  }

  /** When `s` does not end in whitespace, `trim` only removes leading whitespace. */
  lemma TrimToLast(s: string)
    requires |s| > 0 && !IsWhitespace(s[|s| - 1])
    ensures Trim(s) == TrimStart(s) == s[|s| - |TrimStart(s)|..]
  {
    var r := TrimStart(s);
    TrimStartBefore(s, |s| - 1);
    assert r[|r| - 1] == s[|s| - 1];
    TrimEndUnchanged(r);
  }

  /** A character that is not whitespace lies past any all-whitespace prefix. */
  lemma WhitespaceBefore(s: string, n: nat, k: nat)
    requires n <= |s| && k < |s|
    requires forall j :: 0 <= j < n ==> IsWhitespace(s[j])
    requires !IsWhitespace(s[k])
    ensures n <= k
  {
  }

  lemma TrimEndUnchanged(s: string)
    requires |s| > 0 && !IsWhitespace(s[|s| - 1])
    ensures TrimEnd(s) == s
  {
  }

  /** What `trim` keeps is a contiguous piece of its input, and only whitespace is dropped around it. */
  lemma TrimKeepsMiddle(s: string)
    ensures exists i, j :: 0 <= i <= j <= |s| && Trim(s) == s[i..j] && AllWhitespace(s[..i]) && AllWhitespace(s[j..])
  {
    var t := TrimStart(s);
    var e := TrimEnd(t);
    var i := |s| - |t|;
    var j := i + |e|;
    assert s[j..] == t[|e|..];
    assert 0 <= i <= j <= |s| && Trim(s) == s[i..j] && AllWhitespace(s[..i]) && AllWhitespace(s[j..]);
  }

  // ---------------------------------------------------------------------------
  // Padding

  function Repeat(c: char, n: nat): (r: string)
    ensures |r| == n && forall k :: 0 <= k < n ==> r[k] == c
  {
    seq(n, _ => c)
  }

  /** `s.padStart(n, fill)` with a one-character fill: never truncates, and
      otherwise prefixes copies of `fill` up to length `n`. */
  function PadStart(s: string, n: nat, fill: char): (r: string)
    ensures |r| == Max(|s|, n)
    ensures r[|r| - |s|..] == s
    ensures forall k :: 0 <= k < |r| - |s| ==> r[k] == fill
  {
    if |s| >= n then s else Repeat(fill, n - |s|) + s
  }

  // ---------------------------------------------------------------------------
  // Number formatting

  predicate IsDecimalDigit(c: char) { '0' <= c <= '9' }

  predicate IsLowerHexDigit(c: char) { '0' <= c <= '9' || 'a' <= c <= 'f' }

  predicate IsUpperHexDigit(c: char) { '0' <= c <= '9' || 'A' <= c <= 'F' }

  predicate IsHexDigit(c: char) { IsLowerHexDigit(c) || IsUpperHexDigit(c) }

  /** The value of a string of decimal digits (what `parseInt(s, 10)` reads). */
  function DecimalValue(s: string): nat
    requires forall k :: 0 <= k < |s| ==> IsDecimalDigit(s[k])
  {
    if s == [] then 0 else DecimalValue(s[..|s| - 1]) * 10 + DecimalDigitValue(s[|s| - 1])
  }

  function DecimalDigitValue(c: char): (v: nat)
    requires IsDecimalDigit(c)
    ensures v < 10
  {
    c as int - '0' as int
  }

  function HexDigitValue(c: char): (v: nat)
    requires IsHexDigit(c)
    ensures v < 16
  {
    if '0' <= c <= '9' then c as int - '0' as int
    else if 'a' <= c <= 'f' then c as int - 'a' as int + 10
    else c as int - 'A' as int + 10
  }

  /** The value of a string of hex digits of either case (what `parseInt(s, 16)` reads). */
  function HexValue(s: string): nat
    requires forall k :: 0 <= k < |s| ==> IsHexDigit(s[k])
  {
    if s == [] then 0 else HexValue(s[..|s| - 1]) * 16 + HexDigitValue(s[|s| - 1])
  }

  /** `n.toString()` for a non-negative integer: decimal digits, no leading zero. */
  function ToString10(n: nat): (r: string)
    ensures |r| >= 1
    decreases n
  {
    var d := ["0123456789"[n % 10]];
    if n < 10 then d else ToString10(n / 10) + d
  }

  /** `toString` writes decimal digits that read back as the number. */
  lemma {:induction false} ToString10Value(n: nat)
    ensures forall k :: 0 <= k < |ToString10(n)| ==> IsDecimalDigit(ToString10(n)[k])
    ensures DecimalValue(ToString10(n)) == n
    decreases n
  {
    if n >= 10 {
      ToString10Value(n / 10);
      var r := ToString10(n);
      assert r[..|r| - 1] == ToString10(n / 10);
    }
  }

  /** Number of decimal digits of `n`, in the ranges the length field can hit. */
  lemma {:induction false} DecimalLength(n: nat)
    ensures n < 10 ==> |ToString10(n)| == 1
    ensures 10 <= n < 100 ==> |ToString10(n)| == 2
    ensures 100 <= n ==> |ToString10(n)| >= 3
  {
    if n >= 10 {
      DecimalLength(n / 10);
    }
  }

  /** `n.toString(16)` for a non-negative integer: lower-case hex digits, no leading zero. */
  function ToString16(n: nat): (r: string)
    ensures |r| >= 1
    decreases n
  {
    var d := ["0123456789abcdef"[n % 16]];
    if n < 16 then d else ToString16(n / 16) + d
  }

  /** `toString(16)` writes lower-case hex digits that read back as the number. */
  lemma {:induction false} ToString16Value(n: nat)
    ensures forall k :: 0 <= k < |ToString16(n)| ==> IsLowerHexDigit(ToString16(n)[k])
    ensures HexValue(ToString16(n)) == n
    decreases n
  {
    if n >= 16 {
      ToString16Value(n / 16);
      var r := ToString16(n);
      assert r[..|r| - 1] == ToString16(n / 16);
    }
  }

  /** Number of hex digits of `n` below 0x10000. */
  lemma {:induction false} HexLength(n: nat)
    requires n < 0x10000
    ensures |ToString16(n)| == 1 <==> n < 0x10
    ensures |ToString16(n)| == 2 <==> 0x10 <= n < 0x100
    ensures |ToString16(n)| == 3 <==> 0x100 <= n < 0x1000
    ensures |ToString16(n)| == 4 <==> 0x1000 <= n
  {
    if n >= 0x10 {
      HexLength(n / 16);
    }
  }

  // ---------------------------------------------------------------------------
  // Case mapping

  function UpperChar(c: char): char {
    if 'a' <= c <= 'z' then (c as int - 32) as char else c
  }

  /** `s.toUpperCase()` on the ASCII letters, which are the only letters it meets here. */
  function ToUpperCase(s: string): (r: string)
    ensures |r| == |s|
  {
    seq(|s|, k requires 0 <= k < |s| => UpperChar(s[k]))
  }

  /** Upper-casing lower-case hex digits gives upper-case hex digits of the same value. */
  lemma {:induction false} UpperHexValue(s: string)
    requires forall k :: 0 <= k < |s| ==> IsLowerHexDigit(s[k])
    ensures forall k :: 0 <= k < |s| ==> IsUpperHexDigit(ToUpperCase(s)[k])
    ensures HexValue(ToUpperCase(s)) == HexValue(s)
  {
    if s != [] {
      var p := s[..|s| - 1];
      UpperHexValue(p);
      assert ToUpperCase(s)[..|s| - 1] == ToUpperCase(p);
    }
  }

  /** Leading zeros do not change a hex value. */
  lemma {:induction false} HexLeadingZeros(z: nat, s: string)
    requires forall k :: 0 <= k < |s| ==> IsHexDigit(s[k])
    ensures forall k :: 0 <= k < z + |s| ==> IsHexDigit((Repeat('0', z) + s)[k])
    ensures HexValue(Repeat('0', z) + s) == HexValue(s)
    decreases |s|
  {
    var t := Repeat('0', z) + s;
    if s == [] {
      assert t == Repeat('0', z);
      HexZeros(z);
    } else {
      var p := s[..|s| - 1];
      HexLeadingZeros(z, p);
      assert t[..|t| - 1] == Repeat('0', z) + p;
    }
  }

  lemma {:induction false} HexZeros(z: nat)
    ensures HexValue(Repeat('0', z)) == 0
  {
    if z > 0 {
      HexZeros(z - 1);
      assert Repeat('0', z)[..z - 1] == Repeat('0', z - 1);
    }
  }

  // ---------------------------------------------------------------------------
  // Character codes

  /** The UTF-16 code unit of a character: the low 16 bits of its code point,
      which is the whole code point for a character of the Basic Multilingual Plane. */
  function CodeUnit(c: char): (r: bv16)
    ensures (c as bv32) < 0x10000 ==> r as bv32 == c as bv32
  {
    ((c as bv32) & 0xFFFF) as bv16
  }

  /** `s.charCodeAt(i)` for an index in range. */
  function CharCodeAt(s: string, i: nat): bv16
    requires i < |s|
  {
    CodeUnit(s[i])
  }

  /** A few code units: an ASCII letter and digit, and a Latin-1 letter. */
  lemma CodeUnitExamples()
    ensures CodeUnit('A') == 0x41 && CodeUnit('0') == 0x30
    ensures CodeUnit('\U{E9}') == 0xE9
  {
  }
}
