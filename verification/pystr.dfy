/** The few Python 2 string builtins that the HTML plugin relies on, stated on
    `seq<char>`: `find`, `rfind`, slicing with integer bounds, `strip()` with no
    argument, `'\n'.join(...)` and its inverse `split('\n')`. */
module PyStr {

  /** Which characters `strip()` removes. A byte string (`str`) strips ASCII
      whitespace; a `unicode` string strips every character that Python 2.7's
      `unicode.isspace` accepts. */
  datatype Whitespace = ByteSpace | UnicodeSpace

  /** Whether `strip()` removes `c`. On ASCII both sets hold the six C
      whitespace characters; the `unicode` set adds the four separators
      `\x1c`..`\x1f`. */
  function IsSpace(ws: Whitespace, c: char): (b: bool)
    ensures ws == ByteSpace ==> (b <==> c in {' ', '\t', '\n', '\U{0B}', '\U{0C}', '\r'})
    ensures ws == UnicodeSpace && c < '\U{80}' ==>
              (b <==> c in {' ', '\t', '\n', '\U{0B}', '\U{0C}', '\r', '\U{1C}', '\U{1D}', '\U{1E}', '\U{1F}'})
  {
    match ws
    case ByteSpace => c == ' ' || '\t' <= c <= '\r'
    case UnicodeSpace =>
      '\t' <= c <= '\r' || '\U{1C}' <= c <= ' ' || c == '\U{85}' || c == '\U{A0}' ||
      c == '\U{1680}' || c == '\U{180E}' || '\U{2000}' <= c <= '\U{200A}' ||
      c == '\U{2028}' || c == '\U{2029}' || c == '\U{202F}' || c == '\U{205F}' || c == '\U{3000}'
  }

  // ---------------------------------------------------------------------------
  // find / rfind

  /** `s.find(c)`: the index of the first occurrence of `c`, or -1. */
  function Find(s: string, c: char): (r: int)
    ensures r == -1 <==> c !in s
    ensures r != -1 ==> 0 <= r < |s| && s[r] == c && forall k :: 0 <= k < r ==> s[k] != c
  {
    if s == [] then -1
    else if s[0] == c then 0
    else
      var k := Find(s[1..], c);
      if k == -1 then -1 else k + 1
  }

  /** `s.rfind(c)`: the index of the last occurrence of `c`, or -1. */
  function RFind(s: string, c: char): (r: int)
    ensures r == -1 <==> c !in s
    ensures r != -1 ==> 0 <= r < |s| && s[r] == c && forall k :: r < k < |s| ==> s[k] != c
  {
    if s == [] then -1
    else if s[|s| - 1] == c then |s| - 1
    else RFind(s[..|s| - 1], c)
  }

  // ---------------------------------------------------------------------------
  // slicing

  /** How Python normalises one integer bound of `s[start:end]` for a sequence
      of length `n`: a negative bound counts from the end, then the bound is
      clamped to `0..n`. */
  function SliceBound(i: int, n: nat): (r: nat)
    ensures r <= n
    ensures 0 <= i <= n ==> r == i
    ensures -(n as int) <= i < 0 ==> r as int == i + n as int
    ensures i < -(n as int) ==> r == 0
    ensures n < i ==> r == n
  {
    if i < 0 then (if i + n < 0 then 0 else i + n)
    else if i > n then n
    else i
  }

  /** `s[start:end]`; an empty result when the normalised start is past the
      normalised end. */
  function Slice(s: string, start: int, end: int): (r: string)
    ensures |r| <= |s|
    ensures 0 <= start <= end <= |s| ==> r == s[start..end]
    ensures 0 <= start && end <= start && 0 <= end ==> r == []
  {
    var lo := SliceBound(start, |s|);
    var hi := SliceBound(end, |s|);
    if lo <= hi then s[lo..hi] else []
  }

  // ---------------------------------------------------------------------------
  // strip

  /** The number of whitespace characters that open `s`. */
  function LeadingSpaces(ws: Whitespace, s: string): (n: nat)
    ensures n <= |s|
    ensures forall k :: 0 <= k < n ==> IsSpace(ws, s[k])
    ensures n < |s| ==> !IsSpace(ws, s[n])
  {
    if s == [] || !IsSpace(ws, s[0]) then 0
    else 1 + LeadingSpaces(ws, s[1..])
  }

  /** The number of whitespace characters that close `s`. */
  function TrailingSpaces(ws: Whitespace, s: string): (n: nat)
    ensures n <= |s|
    ensures forall k :: |s| - n <= k < |s| ==> IsSpace(ws, s[k])
    ensures n < |s| ==> !IsSpace(ws, s[|s| - 1 - n])
  {
    if s == [] || !IsSpace(ws, s[|s| - 1]) then 0
    else 1 + TrailingSpaces(ws, s[..|s| - 1])
  }

  /** `s.strip()`: drop leading whitespace, then trailing whitespace. */
  function Strip(ws: Whitespace, s: string): (r: string)
    ensures |r| <= |s|
    ensures r != [] ==> !IsSpace(ws, r[0]) && !IsSpace(ws, r[|r| - 1])
  {
    var t := s[LeadingSpaces(ws, s)..];
    t[..|t| - TrailingSpaces(ws, t)]
  }

  /** Whether `s[lo..hi]` is what is left once every whitespace character at
      either end of `s` is removed. */
  ghost predicate TrimmedTo(ws: Whitespace, s: string, lo: nat, hi: nat)
  {
    lo <= hi <= |s| &&
    (forall k :: 0 <= k < lo ==> IsSpace(ws, s[k])) &&
    (forall k :: hi <= k < |s| ==> IsSpace(ws, s[k])) &&
    (lo < hi ==> !IsSpace(ws, s[lo]) && !IsSpace(ws, s[hi - 1]))
  }

  /** `strip()` removes exactly the whitespace at both ends and nothing else. */
  lemma StripTrims(ws: Whitespace, s: string, lo: nat, hi: nat)
    requires TrimmedTo(ws, s, lo, hi)
    ensures Strip(ws, s) == s[lo..hi]
  {
    var a := LeadingSpaces(ws, s);
    var t := s[a..];
    var b := TrailingSpaces(ws, t);
    if lo < hi {
      assert a < |s| ==> !IsSpace(ws, s[a]);
      assert a == lo;
      assert t[|t| - 1 - b] == s[lo + |t| - 1 - b] by { assert |t| - 1 - b < |t| || b == |t|; }
      assert |t| - b == hi - lo;
    } else {
      assert a == |s|;
    }
  }

  /** The whole trim characterisation of `strip()`: some bounds satisfy
      `TrimmedTo`, and they are the result. */
  lemma StripIsTrim(ws: Whitespace, s: string)
    ensures exists lo: nat, hi: nat :: TrimmedTo(ws, s, lo, hi) && Strip(ws, s) == s[lo..hi]
  {
    var a := LeadingSpaces(ws, s);
    var t := s[a..];
    var b := TrailingSpaces(ws, t);
    assert TrimmedTo(ws, s, a, a + |t| - b) by {
      forall k | a + |t| - b <= k < |s| ensures IsSpace(ws, s[k]) {
        assert s[k] == t[k - a];
      }
      if a < a + |t| - b {
        assert s[a + |t| - b - 1] == t[|t| - 1 - b];
      }
    }
    StripTrims(ws, s, a, a + |t| - b);
  }

  /** A string made of whitespace alone strips to the empty string. */
  lemma StripAllSpace(ws: Whitespace, s: string)
    requires forall k :: 0 <= k < |s| ==> IsSpace(ws, s[k])
    ensures Strip(ws, s) == []
  {
    StripTrims(ws, s, |s|, |s|);
  }

  // ---------------------------------------------------------------------------
  // '\n'.join and split('\n')

  /** Total number of characters in `lines`. */
  function TotalLength(lines: seq<string>): nat
  {
    if lines == [] then 0 else |lines[0]| + TotalLength(lines[1..])
  }

  /** `'\n'.join(lines)`. */
  function JoinLines(lines: seq<string>): (r: string)
    ensures lines != [] ==> |r| == TotalLength(lines) + |lines| - 1
    ensures lines == [] ==> r == []
  {
    if lines == [] then []
    else if |lines| == 1 then lines[0]
    else lines[0] + "\n" + JoinLines(lines[1..])
  }

  /** `s.split('\n')`: the pieces between newlines, always at least one. */
  function SplitLines(s: string): (r: seq<string>)
    ensures r != []
    ensures forall i :: 0 <= i < |r| ==> '\n' !in r[i]
    decreases |s|
  {
    var i := Find(s, '\n');
    if i == -1 then [s]
    else [s[..i]] + SplitLines(s[i + 1..])
  }

  /** Splitting a joined list gives the list back when no line holds a newline. */
  lemma {:induction false} SplitJoin(lines: seq<string>)
    requires lines != []
    requires forall i :: 0 <= i < |lines| ==> '\n' !in lines[i]
    ensures SplitLines(JoinLines(lines)) == lines
  {
    var s := JoinLines(lines);
    if |lines| == 1 {
      assert Find(s, '\n') == -1;
    } else {
      var x := lines[0];
      var rest := JoinLines(lines[1..]);
      assert s == x + "\n" + rest;
      assert s[|x|] == '\n';
      forall k | 0 <= k < |x| ensures s[k] != '\n' {
        assert s[k] == x[k];
      }
      var i := Find(s, '\n');
      assert i == |x|;
      assert s[..i] == x;
      assert s[i + 1..] == rest;
      SplitJoin(lines[1..]);
    }
  }

  /** Joining the pieces of a split gives the string back. */
  lemma {:induction false} JoinSplit(s: string)
    ensures JoinLines(SplitLines(s)) == s
    decreases |s|
  {
    var i := Find(s, '\n');
    if i != -1 {
      var rest := SplitLines(s[i + 1..]);
      JoinSplit(s[i + 1..]);
      assert rest != [] && |[s[..i]] + rest| > 1;
      assert ([s[..i]] + rest)[0] == s[..i];
      assert SplitLines(s) == [s[..i]] + rest;
      assert ([s[..i]] + rest)[1..] == rest;
      assert JoinLines([s[..i]] + rest) == s[..i] + "\n" + JoinLines(rest);
      assert s == s[..i] + "\n" + s[i + 1..];
    }
  }
}
