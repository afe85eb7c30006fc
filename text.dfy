/** The Python string built-ins the converter relies on: `str.strip()`,
    `str.startswith`, the open-ended slice `s[n:]`, `sep.join(parts)` and
    the decimal rendering `str(n)` of a non-negative integer. */
module Text {

  /** Python's `str.isspace()` for one character: the characters whose
      bidirectional class is WS, B or S, or whose category is Zs. */
  predicate IsSpace(c: char) {
    ('\t' <= c <= '\r') || ('\U{1C}' <= c <= '\U{1F}') || c == ' '
    || c == '\U{85}' || c == '\U{A0}' || c == '\U{1680}'
    || ('\U{2000}' <= c <= '\U{200A}') || c == '\U{2028}' || c == '\U{2029}'
    || c == '\U{202F}' || c == '\U{205F}' || c == '\U{3000}'
  }

  predicate AllSpace(s: string) {
    forall k :: 0 <= k < |s| ==> IsSpace(s[k])
  }

  /** `s.strip()`: `s` without its leading and trailing whitespace. One
      character is removed at a time, from the front first. */
  function Strip(s: string): string {
    if |s| > 0 && IsSpace(s[0]) then Strip(s[1..])
    else if |s| > 0 && IsSpace(s[|s| - 1]) then Strip(s[..|s| - 1])
    else s
  }

  /** What `strip` keeps neither starts nor ends with whitespace. */
  lemma {:induction false} StripEnds(s: string)
    ensures Strip(s) == [] || (!IsSpace(Strip(s)[0]) && !IsSpace(Strip(s)[|Strip(s)| - 1]))
  {
    if |s| > 0 && IsSpace(s[0]) {
      StripEnds(s[1..]);
    } else if |s| > 0 && IsSpace(s[|s| - 1]) {
      StripEnds(s[..|s| - 1]);
    }
  }

  /** `r` is what is left of `s` once the whitespace `s[..i]` is cut from
      the front and the whitespace after `r` from the back. */
  predicate InnerPartAt(s: string, r: string, i: int) {
    0 <= i <= |s| - |r| && r == s[i..i + |r|] && AllSpace(s[..i]) && AllSpace(s[i + |r|..])
  }

  /** `r` is what is left of `s` once some whitespace is cut from each end. */
  ghost predicate InnerPart(s: string, r: string) {
    exists i :: InnerPartAt(s, r, i)
  }

  /** What `strip` removes is whitespace, from the two ends of `s`. */
  lemma {:induction false} StripSlice(s: string)
    ensures InnerPart(s, Strip(s))
  {
    if |s| > 0 && IsSpace(s[0]) {
      StripSlice(s[1..]);
      InnerPartFront(s, Strip(s));
    } else if |s| > 0 && IsSpace(s[|s| - 1]) {
      StripSlice(s[..|s| - 1]);
      InnerPartBack(s, Strip(s));
    } else {
      assert InnerPartAt(s, s, 0) by {
        assert s[0..0 + |s|] == s;
      }
    }
  }

  lemma InnerPartFront(s: string, r: string)
    requires |s| > 0 && IsSpace(s[0]) && InnerPart(s[1..], r)
    ensures InnerPart(s, r)
  {
    var t := s[1..];
    var i :| InnerPartAt(t, r, i);
    assert InnerPartAt(s, r, i + 1) by {
      assert t[i..i + |r|] == s[i + 1..i + 1 + |r|];
      assert t[i + |r|..] == s[i + 1 + |r|..];
      var front, tFront := s[..i + 1], t[..i];
      forall k | 0 <= k < i + 1
        ensures IsSpace(front[k])
      {
        if k > 0 {
          assert front[k] == tFront[k - 1];
        }
      }
    }
  }

  lemma InnerPartBack(s: string, r: string)
    requires |s| > 0 && IsSpace(s[|s| - 1]) && InnerPart(s[..|s| - 1], r)
    ensures InnerPart(s, r)
  {
    var t := s[..|s| - 1];
    var i :| InnerPartAt(t, r, i);
    assert InnerPartAt(s, r, i) by {
      assert t[i..i + |r|] == s[i..i + |r|];
      assert t[..i] == s[..i];
      var back, tBack := s[i + |r|..], t[i + |r|..];
      forall k | 0 <= k < |back|
        ensures IsSpace(back[k])
      {
        if k < |tBack| {
          assert back[k] == tBack[k];
        }
      }
    }
  }

  /** A string with no whitespace at either end is its own strip. */
  lemma StripUnchanged(s: string)
    requires s == [] || (!IsSpace(s[0]) && !IsSpace(s[|s| - 1]))
    ensures Strip(s) == s
  {
  }

  /** Stripping twice is stripping once. */
  lemma StripIdempotent(s: string)
    ensures Strip(Strip(s)) == Strip(s)
  {
    StripEnds(s);
    StripUnchanged(Strip(s));
  }

  /** Whitespace around a string does not survive stripping: together with
      StripEnds and StripSlice this determines `strip` completely. */
  lemma {:induction false} StripPadded(pre: string, s: string, post: string)
    requires AllSpace(pre) && AllSpace(post)
    requires s == [] || (!IsSpace(s[0]) && !IsSpace(s[|s| - 1]))
    ensures Strip(pre + s + post) == s
  {
    var whole := pre + s + post;
    if pre != [] {
      assert whole[1..] == pre[1..] + s + post;
      StripPadded(pre[1..], s, post);
    } else if post != [] {
      assert pre + s + post == s + post;
      if s == [] {
        // The front character is itself one of the trailing spaces.
        assert whole == post && whole[1..] == [] + [] + post[1..];
        StripPadded([], [], post[1..]);
      } else {
        assert whole[..|whole| - 1] == [] + s + post[..|post| - 1];
        StripPadded([], s, post[..|post| - 1]);
      }
    } else {
      assert whole == s;
    }
  }

  /** `s.startswith(prefix)`. */
  predicate StartsWith(s: string, prefix: string) {
    |prefix| <= |s| && s[..|prefix|] == prefix
  }

  /** The slice `s[n:]` for `n >= 0`: empty, never an error, once `n` passes the end. */
  function Drop<T>(s: seq<T>, n: nat): (r: seq<T>)
    ensures |r| == if n <= |s| then |s| - n else 0
    ensures forall k :: 0 <= k < |r| ==> r[k] == s[n + k]
  {
    if n <= |s| then s[n..] else []
  }

  /** Appending nothing changes nothing; stated once so that callers need
      not prove it again for their own sequence expressions. */
  lemma AppendEmpty<T>(s: seq<T>)
    ensures s + [] == s
  {
  }

  /** Regrouping two single elements in front of a sequence. */
  lemma PrependTwo<T>(x: T, y: T, s: seq<T>)
    ensures [x] + ([y] + s) == [x, y] + s
  {
  }

  /** `sep.join(parts)`. */
  function Join(parts: seq<string>, sep: string): string {
    if |parts| == 0 then ""
    else if |parts| == 1 then parts[0]
    else parts[0] + sep + Join(parts[1..], sep)
  }

  /** Joining two non-empty lists puts exactly one separator between the halves. */
  lemma {:induction false} JoinConcat(a: seq<string>, b: seq<string>, sep: string)
    requires |a| > 0 && |b| > 0
    ensures Join(a + b, sep) == Join(a, sep) + sep + Join(b, sep)
  {
    if |a| == 1 {
      assert (a + b)[1..] == b;
    } else {
      assert (a + b)[1..] == a[1..] + b;
      JoinConcat(a[1..], b, sep);
    }
  }

  /** Joining a bracketed list: the opening part, the joined middle and the
      closing part, separated by `sep`. */
  lemma JoinBracketed(open: string, items: seq<string>, close: string, sep: string)
    requires |items| > 0
    ensures Join([open] + items + [close], sep) == open + sep + Join(items, sep) + sep + close
  {
    assert [open] + items + [close] == [open] + (items + [close]);
    JoinConcat([open], items + [close], sep);
    JoinConcat(items, [close], sep);
    var m := Join(items, sep);
    assert open + sep + (m + sep + close) == open + sep + m + sep + close;
  }

  /** The length of a join: every part, plus one separator between each pair. */
  lemma {:induction false} JoinLength(parts: seq<string>, sep: string)
    requires |parts| > 0
    ensures |Join(parts, sep)| == TotalLength(parts) + (|parts| - 1) * |sep|
  {
    if |parts| > 1 {
      JoinLength(parts[1..], sep);
    }
  }

  function TotalLength(parts: seq<string>): nat {
    if |parts| == 0 then 0 else |parts[0]| + TotalLength(parts[1..])
  }

  predicate IsDigit(c: char) {
    '0' <= c <= '9'
  }

  function DigitChar(d: nat): (c: char)
    requires d < 10
    ensures IsDigit(c)
  {
    ['0', '1', '2', '3', '4', '5', '6', '7', '8', '9'][d]
  }

  /** `str(n)`: decimal digits, no leading zero. */
  function NatToString(n: nat): (s: string)
    ensures |s| > 0
    ensures forall k :: 0 <= k < |s| ==> IsDigit(s[k])
    ensures s[0] == '0' ==> n == 0
    decreases n
  {
    if n < 10 then [DigitChar(n)] else NatToString(n / 10) + [DigitChar(n % 10)]
  }

  /** Reads a string of decimal digits back as a number. */
  function ParseDecimal(s: string): nat
    requires forall k :: 0 <= k < |s| ==> IsDigit(s[k])
  {
    if s == [] then 0
    else ParseDecimal(s[..|s| - 1]) * 10 + DigitValue(s[|s| - 1])
  }

  function DigitValue(c: char): (d: nat)
    requires IsDigit(c)
    ensures d < 10
  {
    (c as int) - ('0' as int)
  }

  /** `str(n)` reads back as `n`, so distinct heading levels give distinct tags. */
  lemma {:induction false} NatToStringRoundTrip(n: nat)
    ensures ParseDecimal(NatToString(n)) == n
    decreases n
  {
    var s := NatToString(n);
    if n >= 10 {
      assert s[..|s| - 1] == NatToString(n / 10);
      NatToStringRoundTrip(n / 10);
    }
  }
}
