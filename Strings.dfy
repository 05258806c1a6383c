/**
  * The JavaScript string operations the tool relies on, over `string`
  * (`seq<char>`): `split` on a one-character separator, `join`,
  * `includes`, the first-occurrence `replace`, `trim`/`trimRight`, and the
  * decimal rendering of numbers inside template strings.
  */
module Strings {

  import opened Wrappers

  /** `s.split(sep)` for a one-character separator: always at least one piece. */
  function Split(s: string, sep: char): (parts: seq<string>)
    ensures |parts| >= 1
    ensures forall k :: 0 <= k < |parts| ==> sep !in parts[k]
    ensures parts[0] <= s
    ensures |parts| == 1 <==> |parts[0]| == |s|
    ensures |parts| > 1 ==> s[|parts[0]|] == sep
    decreases |s|
  {
    if |s| == 0 then [""]
    else if s[0] == sep then [""] + Split(s[1..], sep)
    else
      var rest := Split(s[1..], sep);
      [[s[0]] + rest[0]] + rest[1..]
  }

  /** After the first piece and its separator, the remaining pieces are the split of the rest. */
  lemma {:induction false} SplitTail(s: string, sep: char)
    requires |Split(s, sep)| > 1
    ensures Split(s, sep)[1..] == Split(s[|Split(s, sep)[0]| + 1..], sep)
    decreases |s|
  {
    if s[0] != sep {
      var rest := Split(s[1..], sep);
      SplitTail(s[1..], sep);
      assert s[1..][|rest[0]| + 1..] == s[|rest[0]| + 2..];
    }
  }

  /** `parts.join(sep)`; the empty list joins to the empty string. */
  function Join(parts: seq<string>, sep: string): string
  {
    if |parts| == 0 then ""
    else if |parts| == 1 then parts[0]
    else parts[0] + sep + Join(parts[1..], sep)
  }

  /** Join of a list with a known first piece. */
  lemma JoinCons(p: string, rest: seq<string>, sep: string)
    ensures Join([p] + rest, sep) == if |rest| == 0 then p else p + sep + Join(rest, sep)
  {
    assert ([p] + rest)[1..] == rest;
  }

  /** Joining the pieces of a split with the same separator gives back the input. */
  lemma {:induction false} JoinSplit(s: string, sep: char)
    ensures Join(Split(s, sep), [sep]) == s
    decreases |s|
  {
    if |s| > 0 {
      JoinSplit(s[1..], sep);
      if s[0] == sep {
        JoinSplitAtSeparator(s, sep);
      } else {
        JoinSplitAtChar(s, sep);
        assert s == [s[0]] + s[1..];
      }
    }
  }

  /** A split that starts at a separator joins back when the split of the rest does. */
  lemma JoinSplitAtSeparator(s: string, sep: char)
    requires |s| > 0 && s[0] == sep
    requires Join(Split(s[1..], sep), [sep]) == s[1..]
    ensures Join(Split(s, sep), [sep]) == s
  {
    var rest := Split(s[1..], sep);
    assert Split(s, sep) == [""] + rest;
    JoinCons("", rest, [sep]);
    assert s == [s[0]] + s[1..];
  }

  /** A split that starts with another character joins to that character before the join of the rest. */
  lemma JoinSplitAtChar(s: string, sep: char)
    requires |s| > 0 && s[0] != sep
    ensures Join(Split(s, sep), [sep]) == [s[0]] + Join(Split(s[1..], sep), [sep])
  {
    var rest := Split(s[1..], sep);
    assert Split(s, sep) == [[s[0]] + rest[0]] + rest[1..];
    JoinFirstExtended(s[0], rest, [sep]);
  }

  /** Putting a character in front of the first piece puts it in front of the join. */
  lemma JoinFirstExtended(c: char, parts: seq<string>, sep: string)
    requires |parts| >= 1
    ensures Join([[c] + parts[0]] + parts[1..], sep) == [c] + Join(parts, sep)
  {
    var first, more := [c] + parts[0], parts[1..];
    assert [parts[0]] + more == parts;
    JoinCons(parts[0], more, sep);
    JoinCons(first, more, sep);
    if |more| > 0 {
      var tail := sep + Join(more, sep);
      assert first + tail == [c] + (parts[0] + tail);
    }
  }

  /** A string without the separator splits into itself alone. */
  lemma {:induction false} SplitNoSeparator(p: string, sep: char)
    requires sep !in p
    ensures Split(p, sep) == [p]
    decreases |p|
  {
    if |p| > 0 {
      assert sep !in p[1..] by {
        assert forall j :: 0 <= j < |p[1..]| ==> p[1..][j] == p[j + 1];
      }
      SplitNoSeparator(p[1..], sep);
      assert [p[0]] + p[1..] == p;
    }
  }

  /** A separator-free piece followed by the separator starts the split. */
  lemma {:induction false} SplitAfterPiece(p: string, r: string, sep: char)
    requires sep !in p
    ensures Split(p + [sep] + r, sep) == [p] + Split(r, sep)
    decreases |p|
  {
    var s := p + [sep] + r;
    if |p| == 0 {
      assert s == [sep] + r;
      assert s[1..] == r;
    } else {
      assert sep !in p[1..] by {
        assert forall j :: 0 <= j < |p[1..]| ==> p[1..][j] == p[j + 1];
      }
      assert s[0] == p[0] && s[0] != sep;
      assert s[1..] == p[1..] + [sep] + r;
      SplitAfterPiece(p[1..], r, sep);
      assert [p[0]] + p[1..] == p;
    }
  }

  /** Splitting a join of separator-free pieces recovers exactly those pieces. */
  lemma {:induction false} SplitJoin(parts: seq<string>, sep: char)
    requires |parts| >= 1
    requires forall k :: 0 <= k < |parts| ==> sep !in parts[k]
    ensures Split(Join(parts, [sep]), sep) == parts
    decreases |parts|
  {
    var p, tail := parts[0], parts[1..];
    assert parts == [p] + tail;
    JoinCons(p, tail, [sep]);
    if |tail| == 0 {
      SplitNoSeparator(p, sep);
    } else {
      assert forall k :: 0 <= k < |tail| ==> tail[k] == parts[k + 1];
      SplitJoin(tail, sep);
      SplitAfterPiece(p, Join(tail, [sep]), sep);
    }
  }

  /** `pat` occurs in `s` starting at index `i`. */
  predicate OccursAt(s: string, pat: string, i: int)
  {
    0 <= i && i + |pat| <= |s| && s[i..i + |pat|] == pat
  }

  /** The first index at which `pat` occurs in `s`, as `s.indexOf(pat)` (None for -1). */
  function IndexOf(s: string, pat: string): (r: Option<nat>)
    ensures r.Some? ==> OccursAt(s, pat, r.value)
    ensures r.Some? ==> forall i :: 0 <= i < r.value ==> !OccursAt(s, pat, i)
    ensures r.None? ==> forall i :: !OccursAt(s, pat, i)
    decreases |s|
  {
    if |pat| > |s| then None
    else if pat <= s then Some(0)
    else
      assert forall i :: 0 <= i ==> (OccursAt(s, pat, i + 1) <==> OccursAt(s[1..], pat, i)) by {
        forall i | 0 <= i ensures OccursAt(s, pat, i + 1) <==> OccursAt(s[1..], pat, i) {
          if i + 1 + |pat| <= |s| {
            var a, b := s[i + 1..i + 1 + |pat|], s[1..][i..i + |pat|];
            assert |a| == |b| && forall j :: 0 <= j < |a| ==> a[j] == b[j];
          }
        }
      }
      assert !OccursAt(s, pat, 0);
      match IndexOf(s[1..], pat)
      case None =>
        assert forall i :: !OccursAt(s, pat, i) by {
          forall i ensures !OccursAt(s, pat, i) {
            if i > 0 { assert !OccursAt(s[1..], pat, i - 1); }
          }
        }
        None
      case Some(k) =>
        assert forall i :: 0 <= i < k + 1 ==> !OccursAt(s, pat, i) by {
          forall i | 0 <= i < k + 1 ensures !OccursAt(s, pat, i) {
            if i > 0 { assert !OccursAt(s[1..], pat, i - 1); }
          }
        }
        Some(k + 1)
  }

  /** `s.includes(pat)`: `pat` occurs somewhere in `s`. */
  predicate Contains(s: string, pat: string)
  {
    IndexOf(s, pat).Some?
  }

  /** `s.replace(pat, rep)` with a string pattern: only the first occurrence is replaced. */
  function ReplaceFirst(s: string, pat: string, rep: string): string
  {
    match IndexOf(s, pat)
    case None => s
    case Some(k) => s[..k] + rep + s[k + |pat|..]
  }

  /** Characters that `String.prototype.trim` removes: ECMAScript WhiteSpace and LineTerminator. */
  predicate IsWhitespace(c: char)
  {
    || c == '\t' || c == '\n' || c == '\U{000B}' || c == '\U{000C}' || c == '\r' || c == ' '
    || c == '\U{00A0}' || c == '\U{1680}' || ('\U{2000}' <= c <= '\U{200A}')
    || c == '\U{2028}' || c == '\U{2029}' || c == '\U{202F}' || c == '\U{205F}'
    || c == '\U{3000}' || c == '\U{FEFF}'
  }

  /** Every character of `s` is whitespace (the empty string included). */
  predicate IsBlank(s: string)
  {
    forall k :: 0 <= k < |s| ==> IsWhitespace(s[k])
  }

  /** `s.trimRight()`: the longest prefix of `s` that does not end in whitespace. */
  function TrimRight(s: string): (r: string)
    ensures r <= s
    ensures |r| > 0 ==> !IsWhitespace(r[|r| - 1])
    ensures IsBlank(s[|r|..])
  {
    if |s| == 0 then s
    else if IsWhitespace(s[|s| - 1]) then
      var r := TrimRight(s[..|s| - 1]);
      assert s[|r|..] == s[..|s| - 1][|r|..] + [s[|s| - 1]];
      r
    else s
  }

  /** `s.trimLeft()`: `s` without its leading whitespace. */
  function TrimLeft(s: string): (r: string)
    ensures |r| <= |s| && r == s[|s| - |r|..]
    ensures |r| > 0 ==> !IsWhitespace(r[0])
    ensures IsBlank(s[..|s| - |r|])
  {
    if |s| == 0 then s
    else if IsWhitespace(s[0]) then
      var r := TrimLeft(s[1..]);
      assert s[..|s| - |r|] == [s[0]] + s[1..][..|s| - 1 - |r|];
      r
    else s
  }

  /** `s.trim()`. */
  function Trim(s: string): string
  {
    TrimLeft(TrimRight(s))
  }

  /** `s.trim().length === 0` holds exactly of the blank strings. */
  lemma TrimEmptyIffBlank(s: string)
    ensures |Trim(s)| == 0 <==> IsBlank(s)
  {
    var r := TrimRight(s);
    if |Trim(s)| == 0 {
      assert IsBlank(r[..|r|]);
      assert |r| == 0;
    } else {
      var t := Trim(s);
      assert t == r[|r| - |t|..];
      assert r[|r| - 1] == t[|t| - 1];
      assert s[|r| - 1] == r[|r| - 1];
    }
  }

  predicate IsDigit(c: char)
  {
    '0' <= c <= '9'
  }

  /** The decimal digit of a value below ten. */
  function DigitChar(d: nat): char
    requires d < 10
  {
    "0123456789"[d]
  }

  function DigitValue(c: char): nat
    requires IsDigit(c)
  {
    (c as int - '0' as int) as nat
  }

  /** The decimal numeral of `n`, as a template string renders a non-negative integer. */
  function NatToString(n: nat): (r: string)
    ensures |r| >= 1
    ensures forall k :: 0 <= k < |r| ==> IsDigit(r[k])
    ensures |r| > 1 ==> r[0] != '0'
  {
    if n < 10 then [DigitChar(n)] else NatToString(n / 10) + [DigitChar(n % 10)]
  }

  /** The value of a string of decimal digits. */
  function ParseNat(s: string): nat
    requires forall k :: 0 <= k < |s| ==> IsDigit(s[k])
  {
    if |s| == 0 then 0 else 10 * ParseNat(s[..|s| - 1]) + DigitValue(s[|s| - 1])
  }

  /** Reading the numeral back gives the number: NatToString loses nothing. */
  lemma {:induction false} ParseNatToString(n: nat)
    ensures ParseNat(NatToString(n)) == n
  {
    if n >= 10 {
      ParseNatToString(n / 10);
      var r := NatToString(n);
      assert r[..|r| - 1] == NatToString(n / 10);
    }
  }

  /** An integer as a template string renders it (`-` before negative values). */
  function IntToString(i: int): (r: string)
    ensures |r| >= 1
    ensures r[0] == '-' <==> i < 0
  {
    if i >= 0 then NatToString(i) else "-" + NatToString(-i)
  }

  /**
    * A rendered integer is a sign exactly for negative values, then decimal
    * digits that read back as the integer's magnitude.
    */
  lemma IntToStringRoundTrip(i: int)
    ensures var r := IntToString(i);
            var start := if i < 0 then 1 else 0;
            && |r| > start
            && (r[0] == '-' <==> i < 0)
            && (forall k :: start <= k < |r| ==> IsDigit(r[k]))
            && ParseNat(r[start..]) == (if i < 0 then -i else i)
  {
    var m := if i < 0 then -i else i;
    ParseNatToString(m);
    if i < 0 {
      assert IntToString(i)[1..] == NatToString(m);
    } else {
      assert IntToString(i)[0..] == NatToString(m);
    }
  }
}
