/**
 Strings as the mock database sees them: the key order of a `BTreeMap<String, _>`,
 prefixes, splitting at the key segment separator, decimal rendering of block
 heights and the UTF-8 length that `str::len` reports.

 Rust orders `String`s by their UTF-8 bytes; UTF-8 preserves code-point order, so
 comparing characters by code point gives the same order.
 */
module Strings {
  import opened Wrappers

  /** The key segment separator. */
  const Separator: char := '/'

  /** Strict lexicographic order: `a` sorts before `b`. */
  predicate Below(a: string, b: string)
  {
    if |a| == 0 then |b| > 0
    else |b| > 0 && (a[0] < b[0] || (a[0] == b[0] && Below(a[1..], b[1..])))
  }

  predicate AtMost(a: string, b: string)
  {
    a == b || Below(a, b)
  }

  lemma {:induction false} BelowIrreflexive(a: string)
    ensures !Below(a, a)
  {
    if |a| > 0 {
      BelowIrreflexive(a[1..]);
    }
  }

  lemma {:induction false} BelowTransitive(a: string, b: string, c: string)
    requires Below(a, b) && Below(b, c)
    ensures Below(a, c)
  {
    if |a| > 0 && a[0] == b[0] && b[0] == c[0] {
      BelowTransitive(a[1..], b[1..], c[1..]);
    }
  }

  lemma BelowAsymmetric(a: string, b: string)
    requires Below(a, b)
    ensures !Below(b, a)
  {
    if Below(b, a) {
      BelowTransitive(a, b, a);
      BelowIrreflexive(a);
    }
  }

  lemma {:induction false} BelowTotal(a: string, b: string)
    ensures a == b || Below(a, b) || Below(b, a)
  {
    if |a| > 0 && |b| > 0 && a[0] == b[0] {
      BelowTotal(a[1..], b[1..]);
      if a[1..] == b[1..] {
        assert a == [a[0]] + a[1..] && b == [b[0]] + b[1..];
      }
    }
  }

  predicate StartsWith(s: string, p: string)
  {
    |p| <= |s| && s[..|p|] == p
  }

  /**
   Rust's `str::strip_prefix`: what follows the prefix, when the string starts
   with it.
   */
  function StripPrefix(s: string, p: string): (r: Option<string>)
    ensures r.Some? <==> StartsWith(s, p)
    ensures r.Some? ==> s == p + r.value
  {
    if StartsWith(s, p) then Some(s[|p|..]) else None
  }

  /** Under a common prefix, one string starts with another exactly when it did without it. */
  lemma StartsWithUnder(d: string, k: string, p: string)
    ensures StartsWith(d + k, d)
    ensures StartsWith(d + k, d + p) <==> StartsWith(k, p)
    ensures (d + k)[|d|..] == k
  {
    assert (d + k)[..|d|] == d;
    if StartsWith(k, p) {
      assert (d + k)[..|d + p|] == d + k[..|p|];
    }
    if StartsWith(d + k, d + p) {
      assert (d + k)[..|d + p|][|d|..] == k[..|p|];
    }
  }

  /** A string never sorts before its own prefix. */
  lemma {:induction false} PrefixAtMost(s: string, p: string)
    requires StartsWith(s, p)
    ensures AtMost(p, s)
  {
    if |p| > 0 {
      assert s[1..][..|p| - 1] == p[1..];
      PrefixAtMost(s[1..], p[1..]);
    }
  }

  /** A common prefix does not change the order of two strings. */
  lemma {:induction false} BelowCommonPrefix(p: string, a: string, b: string)
    ensures Below(p + a, p + b) <==> Below(a, b)
  {
    if |p| == 0 {
      assert p + a == a && p + b == b;
    } else {
      assert (p + a)[1..] == p[1..] + a;
      assert (p + b)[1..] == p[1..] + b;
      BelowCommonPrefix(p[1..], a, b);
    }
  }

  /** `a` sorts before `b` at a position where both have a character. */
  predicate Differs(a: string, b: string)
  {
    |a| > 0 && |b| > 0 && (a[0] < b[0] || (a[0] == b[0] && Differs(a[1..], b[1..])))
  }

  /** A difference inside both strings survives anything appended to either. */
  lemma {:induction false} DiffersExtends(a: string, b: string, x: string, y: string)
    requires Differs(a, b)
    ensures Differs(a + x, b + y) && Below(a + x, b + y)
  {
    assert (a + x)[0] == a[0] && (b + y)[0] == b[0];
    if a[0] == b[0] {
      assert (a + x)[1..] == a[1..] + x;
      assert (b + y)[1..] == b[1..] + y;
      DiffersExtends(a[1..], b[1..], x, y);
    }
  }

  /**
   Rust's `str::split` at one character: the pieces between separators, empty
   pieces included, so there is always at least one.
   */
  function Split(s: string): (segments: seq<string>)
    ensures |segments| >= 1
    decreases |s|
  {
    if |s| == 0 then [""]
    else
      var rest := Split(s[1..]);
      if s[0] == Separator then [""] + rest
      else [[s[0]] + rest[0]] + rest[1..]
  }

  /** Splitting loses nothing: the pieces hold no separator and join back to the string. */
  lemma {:induction false} SplitJoin(s: string)
    ensures forall i :: 0 <= i < |Split(s)| ==> Separator !in Split(s)[i]
    ensures Join(Split(s)) == s
    decreases |s|
  {
    if |s| > 0 {
      SplitJoin(s[1..]);
      var rest := Split(s[1..]);
      if s[0] == Separator {
        assert s == [Separator] + s[1..];
        assert Split(s) == [""] + rest;
      } else {
        assert s == [s[0]] + s[1..];
        var segments := Split(s);
        assert segments == [[s[0]] + rest[0]] + rest[1..];
        assert forall i :: 1 <= i < |segments| ==> segments[i] == rest[i];
        if |rest| > 1 {
          assert rest == [rest[0]] + rest[1..];
          assert Join(rest) == rest[0] + [Separator] + Join(rest[1..]);
          assert segments[1..] == rest[1..];
        }
      }
    }
  }

  /** The pieces of a split, glued back together with the separator. */
  function Join(segments: seq<string>): string
    requires |segments| >= 1
  {
    if |segments| == 1 then segments[0]
    else segments[0] + [Separator] + Join(segments[1..])
  }

  /** A string without a separator splits into itself. */
  lemma {:induction false} SplitWhole(s: string)
    requires Separator !in s
    ensures Split(s) == [s]
  {
    if |s| > 0 {
      SplitWhole(s[1..]);
      assert [s[0]] + s[1..] == s;
    }
  }

  /** Splitting `a/b` when `a` has no separator gives `a` followed by the pieces of `b`. */
  lemma {:induction false} SplitAfterSegment(a: string, b: string)
    requires Separator !in a
    ensures Split(a + [Separator] + b) == [a] + Split(b)
  {
    var s := a + [Separator] + b;
    if |a| == 0 {
      assert s == [Separator] + b;
      assert s[1..] == b;
    } else {
      assert s[1..] == a[1..] + [Separator] + b;
      SplitAfterSegment(a[1..], b);
      assert [a[0]] + a[1..] == a;
    }
  }

  function Digit(d: nat): (c: char)
    requires d < 10
    ensures '0' <= c <= '9'
  {
    (d + 48) as char
  }

  /** The decimal rendering of a block height, most significant digit first. */
  function Decimal(n: nat): (r: string)
    ensures |r| >= 1
    ensures forall i :: 0 <= i < |r| ==> '0' <= r[i] <= '9'
  {
    if n < 10 then [Digit(n)] else Decimal(n / 10) + [Digit(n % 10)]
  }

  /** A height rendering never contains the key segment separator. */
  lemma DecimalNoSeparator(n: nat)
    ensures Separator !in Decimal(n)
  {
  }

  /**
   How the renderings of `n` and `n + 1` compare: the successor is never shorter;
   with the same number of digits it sorts after `n` at a digit position; when it
   gains a digit, `n` is all nines and the successor starts with `1`.
   */
  lemma {:induction false} DecimalSuccessor(n: nat)
    ensures |Decimal(n)| <= |Decimal(n + 1)|
    ensures |Decimal(n)| == |Decimal(n + 1)| ==> Differs(Decimal(n), Decimal(n + 1))
    ensures |Decimal(n)| < |Decimal(n + 1)| ==> Decimal(n)[0] == '9' && Decimal(n + 1)[0] == '1'
    decreases n
  {
    if n < 9 {
    } else if n == 9 {
      assert Decimal(10) == Decimal(1) + [Digit(0)];
    } else {
      var q, d := n / 10, n % 10;
      var prefix := Decimal(q);
      assert Decimal(n) == prefix + [Digit(d)];
      if d < 9 {
        assert (n + 1) / 10 == q && (n + 1) % 10 == d + 1;
        assert Decimal(n + 1) == prefix + [Digit(d + 1)];
        DiffersAfterCommonPrefix(prefix, [Digit(d)], [Digit(d + 1)]);
      } else {
        assert (n + 1) / 10 == q + 1 && (n + 1) % 10 == 0;
        assert Decimal(n + 1) == Decimal(q + 1) + [Digit(0)];
        DecimalSuccessor(q);
        if |Decimal(q)| == |Decimal(q + 1)| {
          DiffersExtends(Decimal(q), Decimal(q + 1), [Digit(d)], [Digit(0)]);
        }
      }
    }
  }

  lemma {:induction false} DiffersAfterCommonPrefix(p: string, a: string, b: string)
    requires Differs(a, b)
    ensures Differs(p + a, p + b)
  {
    if |p| == 0 {
      assert p + a == a && p + b == b;
    } else {
      assert (p + a)[1..] == p[1..] + a;
      assert (p + b)[1..] == p[1..] + b;
      DiffersAfterCommonPrefix(p[1..], a, b);
    }
  }

  /** The number of bytes UTF-8 uses for one character. */
  function Utf8Width(c: char): (w: nat)
    ensures 1 <= w <= 4
  {
    if c as int < 0x80 then 1
    else if c as int < 0x800 then 2
    else if c as int < 0x1_0000 then 3
    else 4
  }

  /** The length in bytes of a string's UTF-8 encoding, which is what `str::len` returns. */
  function Utf8Len(s: string): (n: nat)
    ensures |s| <= n <= 4 * |s|
    ensures (forall i :: 0 <= i < |s| ==> s[i] as int < 0x80) ==> n == |s|
  {
    if |s| == 0 then 0 else Utf8Width(s[0]) + Utf8Len(s[1..])
  }
}
