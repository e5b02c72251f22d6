/**
 * The handful of Python `str` operations the relay and the image-saving
 * script rely on, for single-character separators: `c in s`, `s.index(c)`,
 * `s.split(c, 1)`, `s.split(c)`, `sep.join(parts)`, the substring test
 * `sub in s`, and the decimal rendering `f"{n}"` of a natural number.
 */
module PyStr {

  /** `s.index(c)`: the position of the first occurrence of `c` in `s`. */
  function IndexOf(s: string, c: char): (i: nat)
    requires c in s
    ensures i < |s| && s[i] == c
    ensures c !in s[..i]
  {
    if s[0] == c then 0
    else
      var j := IndexOf(s[1..], c);
      assert s[..j + 1] == [s[0]] + s[1..][..j];
      j + 1
  }

  /** `s.split(c, 1)` when `c in s`: the text before the first `c` and everything after it. */
  function SplitOnce(s: string, c: char): (parts: (string, string))
    requires c in s
    ensures parts.0 + [c] + parts.1 == s
    ensures c !in parts.0
  {
    var i := IndexOf(s, c);
    assert s == s[..i] + [c] + s[i + 1..];
    (s[..i], s[i + 1..])
  }

  /** In `head + [c] + tail` with no `c` in `head`, the first `c` is the one after `head`. */
  lemma IndexOfAfter(head: string, c: char, tail: string)
    requires c !in head
    ensures c in head + [c] + tail
    ensures IndexOf(head + [c] + tail, c) == |head|
  {
    var s := head + [c] + tail;
    assert s[|head|] == c;
  }

  /** Splitting once at `c` undoes joining a `c`-free head to a tail with `c`. */
  lemma SplitOnceJoined(head: string, c: char, tail: string)
    requires c !in head
    ensures c in head + [c] + tail
    ensures SplitOnce(head + [c] + tail, c) == (head, tail)
  {
    var s := head + [c] + tail;
    IndexOfAfter(head, c, tail);
    assert s[..|head|] == head && s[|head| + 1..] == tail;
  }

  /** `sep.join(parts)`. */
  function Join(parts: seq<string>, sep: string): string
  {
    if |parts| == 0 then ""
    else if |parts| == 1 then parts[0]
    else parts[0] + sep + Join(parts[1..], sep)
  }

  /** `s.split(c)`: the maximal pieces of `s` between occurrences of `c`, in order. */
  function Split(s: string, c: char): (parts: seq<string>)
    ensures |parts| >= 1
    ensures forall k :: 0 <= k < |parts| ==> c !in parts[k]
    ensures Join(parts, [c]) == s
    decreases |s|
  {
    if c !in s then [s]
    else
      var (head, tail) := SplitOnce(s, c);
      var rest := Split(tail, c);
      assert ([head] + rest)[1..] == rest;
      [head] + rest
  }

  /**
   * `f` is the first field of `s` at `c`: the longest prefix of `s` free of
   * `c`, ending where `s` ends or where its first `c` stands.
   */
  predicate IsFirstField(s: string, c: char, f: string)
  {
    f <= s && c !in f && (|f| == |s| || s[|f|] == c)
  }

  /** `s.split(c)[0]` is the first field of `s` at `c`. */
  lemma SplitFirstField(s: string, c: char)
    ensures IsFirstField(s, c, Split(s, c)[0])
  {
    if c in s {
      var (head, tail) := SplitOnce(s, c);
      assert Split(s, c)[0] == head;
      assert s == head + [c] + tail;
    }
  }

  /** `s.split(c)[1]`, when `s` holds `c`, is the first field of what follows the first `c`. */
  lemma SplitSecondField(s: string, c: char)
    requires c in s
    ensures |Split(s, c)| >= 2
    ensures IsFirstField(s[IndexOf(s, c) + 1..], c, Split(s, c)[1])
  {
    var tail := SplitOnce(s, c).1;
    assert tail == s[IndexOf(s, c) + 1..];
    assert Split(s, c)[1] == Split(tail, c)[0];
    SplitFirstField(tail, c);
  }

  /** `sub in s` for two strings: `sub` occurs somewhere in `s`. */
  predicate IsSubstring(sub: string, s: string)
  {
    exists i | 0 <= i <= |s| :: sub <= s[i..]
  }

  predicate IsDigits(s: string)
  {
    forall k :: 0 <= k < |s| ==> '0' <= s[k] <= '9'
  }

  /** The character of a decimal digit. */
  function Digit(d: nat): (c: char)
    requires d < 10
    ensures '0' <= c <= '9' && c as int - '0' as int == d
  {
    ('0' as int + d) as char
  }

  /** `f"{n}"`: the decimal rendering of `n`, without leading zeros. */
  function NatToString(n: nat): (s: string)
    ensures |s| >= 1 && IsDigits(s)
    ensures |s| > 1 ==> s[0] != '0'
  {
    if n < 10 then [Digit(n)] else NatToString(n / 10) + [Digit(n % 10)]
  }

  /** The number a string of decimal digits denotes. */
  function DigitsValue(s: string): nat
    requires IsDigits(s)
  {
    if |s| == 0 then 0
    else DigitsValue(s[..|s| - 1]) * 10 + (s[|s| - 1] as int - '0' as int)
  }

  /** Reading back a rendered number gives the number. */
  lemma {:induction false} DigitsValueOfNatToString(n: nat)
    ensures DigitsValue(NatToString(n)) == n
  {
    var s := NatToString(n);
    if n >= 10 {
      DigitsValueOfNatToString(n / 10);
      assert s[..|s| - 1] == NatToString(n / 10);
    }
  }

  /** Distinct numbers render as distinct strings. */
  lemma NatToStringInjective(m: nat, n: nat)
    requires m != n
    ensures NatToString(m) != NatToString(n)
  {
    DigitsValueOfNatToString(m);
    DigitsValueOfNatToString(n);
  }
}
