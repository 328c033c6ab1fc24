/** The string operations of Python that the data-access layer and the setup script rely on:
    `str.strip`, `str.upper`, `str.startswith`, `str.join` and `str.split` with an explicit
    one-character separator. Strings are sequences of code points. */
module Text {

  /** Python's `str.isspace()` for one code point: the ASCII blanks, the four
      information separators, NEL, NBSP and the Unicode space and line separators. */
  predicate IsSpace(c: char) {
    c == ' ' || ('\t' <= c <= '\r') || ('\U{1c}' <= c <= '\U{1f}') || c == '\U{85}'
    || c == '\U{a0}' || c == '\U{1680}' || ('\U{2000}' <= c <= '\U{200a}')
    || c == '\U{2028}' || c == '\U{2029}' || c == '\U{202f}' || c == '\U{205f}' || c == '\U{3000}'
  }

  ghost predicate AllSpace(s: string) {
    forall k :: 0 <= k < |s| ==> IsSpace(s[k])
  }

  /** `s.lstrip()`: the suffix of `s` after its leading whitespace. */
  function TrimStart(s: string): (r: string)
    ensures |r| <= |s| && r == s[|s| - |r|..]
    ensures AllSpace(s[..|s| - |r|])
    ensures r == [] || !IsSpace(r[0])
  {
    if |s| > 0 && IsSpace(s[0]) then
      var r := TrimStart(s[1..]);
      assert AllSpace(s[..|s| - |r|]) by {
        assert s[..|s| - |r|] == [s[0]] + s[1..][..|s| - 1 - |r|];
      }
      assert r == s[|s| - |r|..] by {
        assert s[1..][|s| - 1 - |r|..] == s[|s| - |r|..];
      }
      r
    else s
  }

  /** `s.rstrip()`: the prefix of `s` before its trailing whitespace. */
  function TrimEnd(s: string): (r: string)
    ensures |r| <= |s| && r == s[..|r|]
    ensures AllSpace(s[|r|..])
    ensures r == [] || !IsSpace(r[|r| - 1])
  {
    if |s| > 0 && IsSpace(s[|s| - 1]) then
      var r := TrimEnd(s[..|s| - 1]);
      assert AllSpace(s[|r|..]) by {
        assert s[|r|..] == s[..|s| - 1][|r|..] + [s[|s| - 1]];
      }
      assert r == s[..|r|] by {
        assert s[..|s| - 1][..|r|] == s[..|r|];
      }
      r
    else s
  }

  /** `lstrip` leaves a string that does not start with whitespace unchanged. */
  lemma TrimStartNonSpace(s: string)
    requires |s| > 0 && !IsSpace(s[0])
    ensures TrimStart(s) == s
  {
  }

  /** `rstrip` never removes a non-whitespace character, nor anything before one. */
  lemma {:induction false} TrimEndKeeps(s: string, n: nat)
    requires 0 < n <= |s| && !IsSpace(s[n - 1])
    ensures |TrimEnd(s)| >= n
    decreases |s|
  {
    if IsSpace(s[|s| - 1]) {
      assert n < |s|;
      assert s[..|s| - 1][n - 1] == s[n - 1];
      TrimEndKeeps(s[..|s| - 1], n);
    }
  }

  /** `s.strip()`: `s` without leading and trailing whitespace; the result neither starts nor
      ends with whitespace. `StripIsSlice` and `StripUnique` characterise it. */
  function Strip(s: string): (r: string)
    ensures r == [] || (!IsSpace(r[0]) && !IsSpace(r[|r| - 1]))
  {
    TrimEnd(TrimStart(s))
  }

  /** What `strip` removes is whitespace: the result is the slice of `s` between a
      whitespace-only prefix and a whitespace-only suffix. */
  lemma StripIsSlice(s: string) returns (i: nat)
    ensures i + |Strip(s)| <= |s| && Strip(s) == s[i..i + |Strip(s)|]
    ensures AllSpace(s[..i]) && AllSpace(s[i + |Strip(s)|..])
  {
    var t := TrimStart(s);
    var r := TrimEnd(t);
    i := |s| - |t|;
    assert Strip(s) == r;
    assert i + |r| <= |s| && r == s[i..i + |r|] && s[i + |r|..] == t[|r|..] by {
      SliceOfSuffix(s, t, r, i);
    }
    assert AllSpace(s[..i]);
    assert AllSpace(s[i + |r|..]) by {
      assert AllSpace(t[|r|..]);
    }
  }

  /** A prefix `r` of the suffix `t` of `s` starting at `i` is the slice of `s` at `i`, and what
      follows it in `t` is what follows it in `s`. */
  lemma SliceOfSuffix<T>(s: seq<T>, t: seq<T>, r: seq<T>, i: nat)
    requires i <= |s| && t == s[i..] && |r| <= |t| && r == t[..|r|]
    ensures i + |r| <= |s| && r == s[i..i + |r|] && s[i + |r|..] == t[|r|..]
  {
  }

  /** ASCII upper-casing of one code point, the part of `str.upper()` this model covers. */
  function UpperChar(c: char): char {
    if 'a' <= c <= 'z' then (c as int - 32) as char else c
  }

  /** `s.upper()`, code point by code point. */
  function Upper(s: string): (r: string)
    ensures |r| == |s|
  {
    seq(|s|, k requires 0 <= k < |s| => UpperChar(s[k]))
  }

  /** `s.startswith(p)`. */
  predicate StartsWith(s: string, p: string) {
    |p| <= |s| && s[..|p|] == p
  }

  /** `sep.join(xs)`. */
  function Join(xs: seq<string>, sep: string): string
    decreases |xs|
  {
    if |xs| == 0 then ""
    else if |xs| == 1 then xs[0]
    else xs[0] + sep + Join(xs[1..], sep)
  }

  /** The number of occurrences of `c` in `s`. */
  function CountChar(s: string, c: char): nat {
    if |s| == 0 then 0 else (if s[0] == c then 1 else 0) + CountChar(s[1..], c)
  }

  /** `s.split(c)` for a one-character separator: every occurrence of `c` ends a fragment, so
      there is always one fragment more than there are separators, and no fragment holds `c`. */
  function Split(s: string, c: char): (r: seq<string>)
    ensures |r| == CountChar(s, c) + 1
    ensures forall k :: 0 <= k < |r| ==> c !in r[k]
  {
    if |s| == 0 then [""]
    else
      var rest := Split(s[1..], c);
      if s[0] == c then [""] + rest
      else [[s[0]] + rest[0]] + rest[1..]
  }

  /** Joining the fragments of a split with the separator gives back the text. */
  lemma {:induction false} JoinSplit(s: string, c: char)
    ensures Join(Split(s, c), [c]) == s
    decreases |s|
  {
    if |s| > 0 {
      var rest := Split(s[1..], c);
      JoinSplit(s[1..], c);
      if s[0] == c {
        assert Split(s, c) == [""] + rest;
        assert Join([""] + rest, [c]) == "" + [c] + Join(rest, [c]);
      } else if |rest| == 1 {
        assert Split(s, c) == [[s[0]] + rest[0]];
      } else {
        var r := Split(s, c);
        assert r == [[s[0]] + rest[0]] + rest[1..];
        assert r[1..] == rest[1..];
        assert Join(rest, [c]) == rest[0] + [c] + Join(rest[1..], [c]);
      }
    }
  }

  /** Splitting text that starts with a separator-free piece `a` extends the first fragment. */
  lemma {:induction false} SplitPrefix(a: string, t: string, c: char)
    requires c !in a
    ensures Split(a + t, c) == [a + Split(t, c)[0]] + Split(t, c)[1..]
    decreases |a|
  {
    if |a| > 0 {
      var sp := Split(t, c);
      var rest := Split(a[1..] + t, c);
      assert (a + t)[0] == a[0] && (a + t)[1..] == a[1..] + t;
      SplitPrefix(a[1..], t, c);
      assert rest[0] == a[1..] + sp[0] && rest[1..] == sp[1..];
      assert Split(a + t, c) == [[a[0]] + rest[0]] + rest[1..];
      assert [a[0]] + (a[1..] + sp[0]) == a + sp[0];
    } else {
      var r := Split(t, c);
      assert a + t == t && a + r[0] == r[0];
      assert r == [r[0]] + r[1..];
    }
  }

  /** Splitting the join of separator-free parts gives back the parts. */
  lemma {:induction false} SplitJoin(parts: seq<string>, c: char)
    requires |parts| >= 1
    requires forall k :: 0 <= k < |parts| ==> c !in parts[k]
    ensures Split(Join(parts, [c]), c) == parts
    decreases |parts|
  {
    if |parts| == 1 {
      SplitPrefix(parts[0], "", c);
      assert parts[0] + "" == parts[0];
    } else {
      var tail := Join(parts[1..], [c]);
      SplitJoin(parts[1..], c);
      SplitPrefix(parts[0], [c] + tail, c);
      assert ([c] + tail)[1..] == tail;
      assert Split([c] + tail, c) == [""] + Split(tail, c);
      assert Join(parts, [c]) == parts[0] + ([c] + tail);
      assert parts[0] + "" == parts[0];
      assert parts == [parts[0]] + parts[1..];
    }
  }

  /** Leading whitespace in front of `x` is all that `lstrip` removes from `a + x`. */
  lemma {:induction false} TrimStartSkips(a: string, x: string)
    requires AllSpace(a)
    ensures TrimStart(a + x) == TrimStart(x)
    decreases |a|
  {
    if |a| > 0 {
      assert (a + x)[0] == a[0] && (a + x)[1..] == a[1..] + x;
      TrimStartSkips(a[1..], x);
    } else {
      assert a + x == x;
    }
  }

  /** Trailing whitespace after `x`, which does not end in whitespace, is all that `rstrip`
      removes from `x + b`. */
  lemma {:induction false} TrimEndSkips(x: string, b: string)
    requires AllSpace(b)
    requires x == [] || !IsSpace(x[|x| - 1])
    ensures TrimEnd(x + b) == x
    decreases |b|
  {
    if |b| > 0 {
      var s := x + b;
      assert s[|s| - 1] == b[|b| - 1];
      assert s[..|s| - 1] == x + b[..|b| - 1];
      TrimEndSkips(x, b[..|b| - 1]);
    } else {
      assert x + b == x;
    }
  }

  /** The leading and trailing whitespace of `a + m + b` is exactly `a` and `b` when `m` neither
      starts nor ends with whitespace: this pins `Strip` down independently of its definition. */
  lemma StripUnique(a: string, m: string, b: string)
    requires AllSpace(a) && AllSpace(b)
    requires m == [] || (!IsSpace(m[0]) && !IsSpace(m[|m| - 1]))
    ensures Strip(a + m + b) == m
  {
    assert a + m + b == a + (m + b);
    TrimStartSkips(a, m + b);
    if m == [] {
      assert m + b == b;
      assert TrimEnd(TrimStart(b)) == "";
    } else {
      assert (m + b)[0] == m[0];
      assert TrimStart(m + b) == m + b;
      TrimEndSkips(m, b);
    }
  }

  /** Stripping twice strips no more than stripping once. */
  lemma StripIdempotent(s: string)
    ensures Strip(Strip(s)) == Strip(s)
  {
    var m := Strip(s);
    assert "" + m + "" == m;
    StripUnique("", m, "");
  }

  /** Text without the separator is a single fragment. */
  lemma {:induction false} SplitWithoutSeparator(s: string, c: char)
    requires c !in s
    ensures Split(s, c) == [s]
    decreases |s|
  {
    if |s| > 0 {
      SplitWithoutSeparator(s[1..], c);
      assert s == [s[0]] + s[1..];
    }
  }
}
