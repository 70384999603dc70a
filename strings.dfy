/**
 * Character and string helpers with the meaning Python gives them:
 * whitespace as `str.isspace` (which is also what `\s` matches in a `str`
 * regular expression), `str.strip`, and a search for a character.
 */
module Strings {
  import opened Outcomes

  /** The number of code point ranges that Python's `str.isspace` accepts. */
  const SpaceRangeCount: nat := 10

  /** The `i`-th range, inclusive, of code points that Python's `str.isspace` accepts. */
  function SpaceRange(i: nat): (int, int) {
    match i
    case 0 => (0x09, 0x0D)
    case 1 => (0x1C, 0x20)
    case 2 => (0x85, 0x85)
    case 3 => (0xA0, 0xA0)
    case 4 => (0x1680, 0x1680)
    case 5 => (0x2000, 0x200A)
    case 6 => (0x2028, 0x2029)
    case 7 => (0x202F, 0x202F)
    case 8 => (0x205F, 0x205F)
    case _ => (0x3000, 0x3000)
  }

  /** The code point `n` lies in one of the ranges numbered `i` and above. */
  predicate SpaceFrom(n: int, i: nat)
    decreases SpaceRangeCount - i
  {
    i < SpaceRangeCount && (SpaceRange(i).0 <= n <= SpaceRange(i).1 || SpaceFrom(n, i + 1))
  }

  /** Python's `str.isspace` on one character. */
  predicate IsSpace(c: char) {
    SpaceFrom(c as int, 0)
  }

  /** Every character is whitespace (true of the empty string). */
  predicate AllSpace(s: string) {
    forall k :: 0 <= k < |s| ==> IsSpace(s[k])
  }

  /** `s.lstrip()`: `s` without its leading whitespace. */
  function LStrip(s: string): (r: string)
    ensures |r| <= |s|
  {
    if |s| > 0 && IsSpace(s[0]) then LStrip(s[1..]) else s
  }

  /** `LStrip` keeps the longest suffix that does not start with whitespace: everything it drops is whitespace. */
  lemma {:induction false} LStripSpec(s: string)
    ensures LStrip(s) == s[|s| - |LStrip(s)|..]
    ensures LStrip(s) == [] || !IsSpace(LStrip(s)[0])
    ensures forall k :: 0 <= k < |s| - |LStrip(s)| ==> IsSpace(s[k])
  {
    if |s| > 0 && IsSpace(s[0]) {
      LStripSpec(s[1..]);
    }
  }

  /** `s.rstrip()`: `s` without its trailing whitespace. */
  function RStrip(s: string): (r: string)
    ensures |r| <= |s|
  {
    if |s| > 0 && IsSpace(s[|s| - 1]) then RStrip(s[..|s| - 1]) else s
  }

  /** `RStrip` keeps the longest prefix that does not end with whitespace: everything it drops is whitespace. */
  lemma {:induction false} RStripSpec(s: string)
    ensures RStrip(s) == s[..|RStrip(s)|]
    ensures RStrip(s) == [] || !IsSpace(RStrip(s)[|RStrip(s)| - 1])
    ensures forall k :: |RStrip(s)| <= k < |s| ==> IsSpace(s[k])
  {
    if |s| > 0 && IsSpace(s[|s| - 1]) {
      RStripSpec(s[..|s| - 1]);
    }
  }

  /** `s.strip()`: `s` without its leading and trailing whitespace. */
  function Strip(s: string): (r: string)
    ensures |r| <= |s|
  {
    RStrip(LStrip(s))
  }

  /** `Strip` keeps a middle slice of `s` that neither starts nor ends with whitespace. */
  lemma StripSlice(s: string)
    ensures |s| - |LStrip(s)| + |Strip(s)| <= |s|
    ensures Strip(s) == s[|s| - |LStrip(s)|..|s| - |LStrip(s)| + |Strip(s)|]
    ensures Strip(s) == [] || (!IsSpace(Strip(s)[0]) && !IsSpace(Strip(s)[|Strip(s)| - 1]))
  {
    var l := LStrip(s);
    var r := RStrip(l);
    LStripSpec(s);
    RStripSpec(l);
    if r != [] {
      assert r[0] == l[0];
    }
  }

  /** `Strip` drops everything exactly when everything is whitespace. */
  lemma StripEmpty(s: string)
    ensures Strip(s) == [] <==> AllSpace(s)
  {
    var l := LStrip(s);
    var r := RStrip(l);
    LStripSpec(s);
    RStripSpec(l);
    var i := |s| - |l|;
    if r == [] {
      assert l == [];
    } else {
      assert r[0] == l[0] == s[i];
    }
  }

  /**
   * `Strip` keeps a middle slice of `s` that neither starts nor ends with
   * whitespace, drops only whitespace, and is empty exactly when `s` is all
   * whitespace.
   */
  lemma StripSpec(s: string)
    ensures |s| - |LStrip(s)| + |Strip(s)| <= |s|
    ensures Strip(s) == s[|s| - |LStrip(s)|..|s| - |LStrip(s)| + |Strip(s)|]
    ensures Strip(s) == [] || (!IsSpace(Strip(s)[0]) && !IsSpace(Strip(s)[|Strip(s)| - 1]))
    ensures Strip(s) == [] <==> AllSpace(s)
  {
    StripSlice(s);
    StripEmpty(s);
  }

  /** Stripping a string that already has no whitespace at either end changes nothing. */
  lemma StripUnchanged(s: string)
    requires s == [] || (!IsSpace(s[0]) && !IsSpace(s[|s| - 1]))
    ensures Strip(s) == s
  {
  }

  /** Stripping is idempotent. */
  lemma StripIdempotent(s: string)
    ensures Strip(Strip(s)) == Strip(s)
  {
    StripSpec(s);
    StripUnchanged(Strip(s));
  }

  /** A decimal digit, `0` to `9`. */
  predicate IsDigit(c: char) { '0' <= c <= '9' }

  /** The index of the first occurrence of `c` in `s`, if any. */
  function FindChar(s: string, c: char): (r: Option<nat>)
    ensures r.None? <==> c !in s
    ensures r.Some? ==> r.value < |s| && s[r.value] == c && c !in s[..r.value]
  {
    if |s| == 0 then None
    else if s[0] == c then Some(0)
    else match FindChar(s[1..], c)
      case None => None
      case Some(k) => assert s[1..][..k] == s[1..k + 1]; Some(k + 1)
  }

  /** `s.startswith(p)`, compared character by character. */
  predicate StartsWith(s: string, p: string)
    ensures StartsWith(s, p) ==> |p| <= |s|
  {
    p == [] || (s != [] && s[0] == p[0] && StartsWith(s[1..], p[1..]))
  }

  /** `s` starts with `p` exactly when `s` is `p` followed by the rest of `s`. */
  lemma {:induction false} StartsWithSplit(s: string, p: string)
    ensures StartsWith(s, p) <==> |p| <= |s| && s == p + s[|p|..]
  {
    if p != [] && s != [] {
      StartsWithSplit(s[1..], p[1..]);
      if |p| <= |s| && s == p + s[|p|..] {
        assert s[1..] == p[1..] + s[1..][|p| - 1..];
      }
      if StartsWith(s, p) {
        assert s == [s[0]] + s[1..];
      }
    }
  }
}
