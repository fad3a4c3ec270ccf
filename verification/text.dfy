/** String operations the service relies on: ASCII lower-casing, SQL `LIKE`
    matching, Python's `str.strip` and `str.split(",")[0]`, and the binary
    (code point) ordering SQLite uses for `ORDER BY` on text. */
module Text {

  /** ASCII lower-casing of one character: SQLite's built-in `LOWER` only folds `A`-`Z`. */
  function LowerChar(c: char): (r: char)
    ensures !('A' <= r <= 'Z')
    ensures ('a' <= r <= 'z') <==> ('A' <= c <= 'Z' || 'a' <= c <= 'z')
  {
    if 'A' <= c <= 'Z' then (c as int - 'A' as int + 'a' as int) as char else c
  }

  function LowerAscii(s: string): (r: string)
    ensures |r| == |s|
    ensures forall i :: 0 <= i < |s| ==> r[i] == LowerChar(s[i])
  {
    seq(|s|, i requires 0 <= i < |s| => LowerChar(s[i]))
  }

  /** Lower-casing twice is lower-casing once. */
  lemma LowerAsciiIdempotent(s: string)
    ensures LowerAscii(LowerAscii(s)) == LowerAscii(s)
  {
  }

  lemma LowerAsciiSlice(s: string, i: int)
    requires 0 <= i <= |s|
    ensures LowerAscii(s[i..]) == LowerAscii(s)[i..]
  {
  }

  /** `sub` occurs as a contiguous block somewhere in `s`. */
  predicate Contains(s: string, sub: string) {
    exists i :: 0 <= i <= |s| && sub <= s[i..]
  }

  /** A string lacking one of the characters of `sub` does not contain `sub`. */
  lemma MissingCharNotContained(s: string, sub: string, k: nat)
    requires k < |sub| && sub[k] !in s
    ensures !Contains(s, sub)
  {
    forall i | 0 <= i <= |s|
      ensures !(sub <= s[i..])
    {
      if k < |s| - i {
        assert s[i..][k] == s[i + k];
      }
    }
  }

  /** No character that `LIKE` treats specially. */
  predicate NoWildcards(p: string) {
    forall i :: 0 <= i < |p| ==> p[i] != '%' && p[i] != '_'
  }

  /** SQLite's default `s LIKE p`: `%` matches any run of characters, `_`
      exactly one, every other character itself up to ASCII case; no escape
      character is configured. */
  predicate LikeMatch(s: string, p: string)
    decreases |s| + |p|
  {
    if |p| == 0 then |s| == 0
    else if p[0] == '%' then LikeMatch(s, p[1..]) || (|s| > 0 && LikeMatch(s[1..], p))
    else if |s| == 0 then false
    else if p[0] == '_' then LikeMatch(s[1..], p[1..])
    else LowerChar(s[0]) == LowerChar(p[0]) && LikeMatch(s[1..], p[1..])
  }

  /** A lone `%` matches every string. */
  lemma {:induction false} PercentMatchesAll(t: string)
    ensures LikeMatch(t, "%")
    decreases |t|
  {
    if |t| > 0 {
      PercentMatchesAll(t[1..]);
    }
  }

  lemma PrefixStep(a: string, b: string)
    requires |a| > 0
    ensures a <= b <==> |b| > 0 && a[0] == b[0] && a[1..] <= b[1..]
  {
    if |b| > 0 && a[0] == b[0] && a[1..] <= b[1..] {
      assert a == [a[0]] + a[1..];
      assert b[..|a|] == [b[0]] + b[1..][..|a| - 1];
    }
  }

  /** A literal followed by `%` matches exactly the strings that start with
      that literal, up to ASCII case. */
  lemma {:induction false} LiteralThenPercent(t: string, q: string)
    requires NoWildcards(q)
    ensures LikeMatch(t, q + "%") <==> LowerAscii(q) <= LowerAscii(t)
    decreases |q|
  {
    if |q| == 0 {
      assert q + "%" == "%";
      PercentMatchesAll(t);
    } else {
      assert (q + "%")[0] == q[0];
      assert (q + "%")[1..] == q[1..] + "%";
      PrefixStep(LowerAscii(q), LowerAscii(t));
      assert LowerAscii(q)[1..] == LowerAscii(q[1..]);
      if |t| > 0 {
        assert LowerAscii(t)[1..] == LowerAscii(t[1..]);
        LiteralThenPercent(t[1..], q[1..]);
      }
    }
  }

  lemma {:induction false} PercentLiteralPercent(s: string, q: string)
    requires NoWildcards(q)
    ensures LikeMatch(s, "%" + q + "%") <==> exists i :: 0 <= i <= |s| && LikeMatch(s[i..], q + "%")
    decreases |s|
  {
    var p := "%" + q + "%";
    assert p[0] == '%';
    assert p[1..] == q + "%";
    if |s| == 0 {
      if LikeMatch(s, p) {
        assert LikeMatch(s[0..], q + "%");
      }
    } else {
      PercentLiteralPercent(s[1..], q);
      if LikeMatch(s, p) {
        if !LikeMatch(s, q + "%") {
          var i :| 0 <= i <= |s[1..]| && LikeMatch(s[1..][i..], q + "%");
          assert s[1..][i..] == s[i + 1..];
        } else {
          assert s[0..] == s;
        }
      } else {
        assert !LikeMatch(s, q + "%");
        forall i | 0 <= i <= |s|
          ensures !LikeMatch(s[i..], q + "%")
        {
          if i > 0 {
            assert s[1..][i - 1..] == s[i..];
          }
        }
      }
    }
  }

  /** With no wildcard in the filter, `s LIKE '%' || q || '%'` is
      case-insensitive substring search. */
  lemma LikeContains(s: string, q: string)
    requires NoWildcards(q)
    ensures LikeMatch(s, "%" + q + "%") <==> Contains(LowerAscii(s), LowerAscii(q))
  {
    PercentLiteralPercent(s, q);
    if LikeMatch(s, "%" + q + "%") {
      var i :| 0 <= i <= |s| && LikeMatch(s[i..], q + "%");
      LiteralThenPercent(s[i..], q);
      LowerAsciiSlice(s, i);
    }
    if Contains(LowerAscii(s), LowerAscii(q)) {
      var i :| 0 <= i <= |LowerAscii(s)| && LowerAscii(q) <= LowerAscii(s)[i..];
      LowerAsciiSlice(s, i);
      LiteralThenPercent(s[i..], q);
    }
  }

  /** The characters Python's `str.isspace` accepts, which `str.strip` removes. */
  predicate IsSpace(c: char) {
    || c == ' ' || c == '\t' || c == '\n' || c == '\r'
    || c == '\U{000B}' || c == '\U{000C}'
    || ('\U{001C}' <= c <= '\U{001F}')
    || c == '\U{0085}' || c == '\U{00A0}' || c == '\U{1680}'
    || ('\U{2000}' <= c <= '\U{200A}')
    || c == '\U{2028}' || c == '\U{2029}' || c == '\U{202F}' || c == '\U{205F}'
    || c == '\U{3000}'
  }

  function TrimStart(s: string): (r: string)
    ensures |r| <= |s| && r == s[|s| - |r|..]
    ensures forall i :: 0 <= i < |s| - |r| ==> IsSpace(s[i])
    ensures |r| > 0 ==> !IsSpace(r[0])
    decreases |s|
  {
    if |s| > 0 && IsSpace(s[0]) then TrimStart(s[1..]) else s
  }

  function TrimEnd(s: string): (r: string)
    ensures |r| <= |s| && r == s[..|r|]
    ensures forall i :: |r| <= i < |s| ==> IsSpace(s[i])
    ensures |r| > 0 ==> !IsSpace(r[|r| - 1])
    decreases |s|
  {
    if |s| > 0 && IsSpace(s[|s| - 1]) then TrimEnd(s[..|s| - 1]) else s
  }

  /** Where `s.strip()` starts: the number of leading whitespace characters. */
  function StripStart(s: string): (i: nat)
    ensures i <= |s|
    ensures forall k :: 0 <= k < i ==> IsSpace(s[k])
    ensures i < |s| ==> !IsSpace(s[i])
  {
    |s| - |TrimStart(s)|
  }

  /** Python's `s.strip()`: the block of `s` that starts at the first
      non-whitespace character and is followed only by whitespace. */
  function Strip(s: string): (r: string)
    ensures StripStart(s) + |r| <= |s|
    ensures r == s[StripStart(s)..StripStart(s) + |r|]
    ensures forall k :: StripStart(s) + |r| <= k < |s| ==> IsSpace(s[k])
    ensures |r| > 0 ==> !IsSpace(r[0]) && !IsSpace(r[|r| - 1])
  {
    var t := TrimStart(s);
    var r := TrimEnd(t);
    PrefixOfSuffix(s, t, r);
    r
  }

  /** A prefix `r` of a suffix `t` of `s`, followed in `t` by whitespace only,
      is a block of `s` followed by whitespace only. */
  lemma PrefixOfSuffix(s: string, t: string, r: string)
    requires |t| <= |s| && t == s[|s| - |t|..]
    requires |r| <= |t| && r == t[..|r|]
    requires forall k :: |r| <= k < |t| ==> IsSpace(t[k])
    ensures |s| - |t| + |r| <= |s|
    ensures r == s[|s| - |t|..|s| - |t| + |r|]
    ensures forall k :: |s| - |t| + |r| <= k < |s| ==> IsSpace(s[k])
  {
    var i := |s| - |t|;
    forall k | i + |r| <= k < |s|
      ensures IsSpace(s[k])
    {
      assert s[k] == t[k - i];
    }
  }

  /** Stripping leaves a string without surrounding whitespace unchanged. */
  lemma StripTrimmed(s: string)
    requires |s| > 0 ==> !IsSpace(s[0]) && !IsSpace(s[|s| - 1])
    ensures Strip(s) == s
  {
  }

  /** Python's `s.split(sep)[0]`: everything before the first `sep`, or all of `s`. */
  function BeforeFirst(s: string, sep: char): (r: string)
    ensures r <= s
    ensures sep !in r
    ensures |r| < |s| ==> s[|r|] == sep
    decreases |s|
  {
    if |s| == 0 || s[0] == sep then [] else [s[0]] + BeforeFirst(s[1..], sep)
  }

  /** Lexicographic order on code points; for text in SQLite's default
      `BINARY` collation this is the order of the UTF-8 bytes. */
  predicate LexLess(a: string, b: string)
    decreases |a|
  {
    if |a| == 0 then |b| > 0
    else if |b| == 0 then false
    else if a[0] == b[0] then LexLess(a[1..], b[1..])
    else a[0] < b[0]
  }

  lemma {:induction false} LexIrreflexive(a: string)
    ensures !LexLess(a, a)
    decreases |a|
  {
    if |a| > 0 {
      LexIrreflexive(a[1..]);
    }
  }

  lemma {:induction false} LexTransitive(a: string, b: string, c: string)
    requires LexLess(a, b) && LexLess(b, c)
    ensures LexLess(a, c)
    decreases |a|
  {
    if |a| > 0 && a[0] == b[0] && b[0] == c[0] {
      LexTransitive(a[1..], b[1..], c[1..]);
    }
  }

  lemma {:induction false} LexTotal(a: string, b: string)
    requires a != b
    ensures LexLess(a, b) || LexLess(b, a)
    decreases |a|
  {
    if |a| > 0 && |b| > 0 && a[0] == b[0] {
      assert a == [a[0]] + a[1..] && b == [b[0]] + b[1..];
      LexTotal(a[1..], b[1..]);
    }
  }

  lemma {:induction false} LexAsymmetric(a: string, b: string)
    requires LexLess(a, b)
    ensures !LexLess(b, a)
    decreases |a|
  {
    if |a| > 0 && a[0] == b[0] {
      LexAsymmetric(a[1..], b[1..]);
    }
  }
}
