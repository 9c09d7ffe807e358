/**
 * Character classes and the string operations the tool borrows from Python:
 * `str.upper`, `str.lower`, `str.split(":")` and `":".join(...)`.
 * Case mapping is modelled on ASCII letters only.
 */
module Text {

  predicate IsDigit(c: char) { '0' <= c <= '9' }

  /** `[0-9A-Fa-f]` */
  predicate IsHexDigit(c: char) { '0' <= c <= '9' || 'a' <= c <= 'f' || 'A' <= c <= 'F' }

  /** The digits `format(n, "x")` produces. */
  predicate IsLowerHexDigit(c: char) { '0' <= c <= '9' || 'a' <= c <= 'f' }

  /** `\w` restricted to ASCII: letters, digits and the underscore. */
  predicate IsWordChar(c: char) { 'a' <= c <= 'z' || 'A' <= c <= 'Z' || '0' <= c <= '9' || c == '_' }

  function UpperChar(c: char): char
  {
    if 'a' <= c <= 'z' then (c as int - 'a' as int + 'A' as int) as char else c
  }

  function LowerChar(c: char): char
  {
    if 'A' <= c <= 'Z' then (c as int - 'A' as int + 'a' as int) as char else c
  }

  /** `s.upper()` */
  function Upper(s: string): string
  {
    seq(|s|, i requires 0 <= i < |s| => UpperChar(s[i]))
  }

  /** `s.lower()` */
  function Lower(s: string): string
  {
    seq(|s|, i requires 0 <= i < |s| => LowerChar(s[i]))
  }

  /** The tool's address comparison `a.lower() == b.lower()`. */
  predicate SameMac(a: string, b: string)
  {
    Lower(a) == Lower(b)
  }

  /** Two characters with the same lower-case form have the same upper-case form. */
  lemma UpperCharOfSameLower(x: char, y: char)
    requires LowerChar(x) == LowerChar(y)
    ensures UpperChar(x) == UpperChar(y)
  {
  }

  /** Case-insensitively equal strings upper-case to the same string. */
  lemma UpperOfSameMac(a: string, b: string)
    requires SameMac(a, b)
    ensures Upper(a) == Upper(b)
  {
    assert |a| == |Lower(a)| == |Lower(b)| == |b|;
    forall i | 0 <= i < |a|
      ensures Upper(a)[i] == Upper(b)[i]
    {
      assert Lower(a)[i] == Lower(b)[i];
      UpperCharOfSameLower(a[i], b[i]);
    }
  }

  /** Upper-casing does not change an address under the tool's comparison. */
  lemma SameMacUpper(a: string)
    ensures SameMac(Upper(a), a)
  {
    assert forall i :: 0 <= i < |a| ==> Lower(Upper(a))[i] == Lower(a)[i];
  }

  /** A string with no lower-case letter is its own upper-case form. */
  lemma UpperOfNoLower(s: string)
    requires forall i :: 0 <= i < |s| ==> !('a' <= s[i] <= 'z')
    ensures Upper(s) == s
  {
  }

  /** `s.split(":")`: the fields between separators, empty ones included. */
  function Split(s: string): (fields: seq<string>)
    ensures |fields| >= 1
    ensures forall k :: 0 <= k < |fields| ==> ':' !in fields[k]
    decreases |s|
  {
    if s == [] then [[]]
    else if s[0] == ':' then [[]] + Split(s[1..])
    else
      var rest := Split(s[1..]);
      [[s[0]] + rest[0]] + rest[1..]
  }

  /** `":".join(fields)` */
  function Join(fields: seq<string>): string
    decreases |fields|
  {
    if fields == [] then []
    else if |fields| == 1 then fields[0]
    else fields[0] + ":" + Join(fields[1..])
  }

  /** `fields[:n]` */
  function Take(fields: seq<string>, n: nat): seq<string>
  {
    if n < |fields| then fields[..n] else fields
  }

  /** Number of separators in a string. */
  function CountColons(s: string): nat
    decreases |s|
  {
    if s == [] then 0 else (if s[0] == ':' then 1 else 0) + CountColons(s[1..])
  }

  lemma CountColonsNone(s: string)
    requires forall i :: 0 <= i < |s| ==> s[i] != ':'
    ensures CountColons(s) == 0
  {
    if s != [] {
      CountColonsNone(s[1..]);
    }
  }

  lemma CountColonsStep(s: string, i: nat)
    requires i < |s|
    ensures CountColons(s[i..]) == (if s[i] == ':' then 1 else 0) + CountColons(s[i + 1..])
  {
    assert s[i..][1..] == s[i + 1..];
  }

  /**
   * Reference definition of "the first n colon-separated fields, joined back":
   * the prefix of `s` that ends just before its n-th separator (or all of `s`).
   */
  function FieldsPrefix(s: string, n: nat): string
    requires n >= 1
    decreases |s|
  {
    if s == [] then []
    else if s[0] == ':' then (if n == 1 then [] else ":" + FieldsPrefix(s[1..], n - 1))
    else [s[0]] + FieldsPrefix(s[1..], n)
  }

  lemma JoinCons(c: char, x: string, rest: seq<string>)
    ensures Join([[c] + x] + rest) == [c] + Join([x] + rest)
  {
    if rest != [] {
      assert ([[c] + x] + rest)[1..] == rest;
      assert ([x] + rest)[1..] == rest;
    }
  }

  /** Splitting on ":" and joining with ":" gives the string back. */
  lemma {:induction false} JoinSplit(s: string)
    ensures Join(Split(s)) == s
    decreases |s|
  {
    if s == [] {
    } else if s[0] == ':' {
      var rest := Split(s[1..]);
      JoinSplit(s[1..]);
      assert ([[]] + rest)[1..] == rest;
    } else {
      var rest := Split(s[1..]);
      JoinSplit(s[1..]);
      JoinCons(s[0], rest[0], rest[1..]);
      assert [rest[0]] + rest[1..] == rest;
    }
  }

  /** Joining two non-empty field lists puts one separator between them. */
  lemma {:induction false} JoinAppend(xs: seq<string>, ys: seq<string>)
    requires |xs| >= 1 && |ys| >= 1
    ensures Join(xs + ys) == Join(xs) + ":" + Join(ys)
    decreases |xs|
  {
    if |xs| == 1 {
      assert (xs + ys)[1..] == ys;
    } else {
      JoinAppend(xs[1..], ys);
      assert (xs + ys)[1..] == xs[1..] + ys;
    }
  }

  /** `":".join(s.split(":")[:n])` is the reference prefix of `s`. */
  lemma {:induction false} TakeFieldsIsPrefix(s: string, n: nat)
    requires n >= 1
    ensures Join(Take(Split(s), n)) == FieldsPrefix(s, n)
    decreases |s|
  {
    if s == [] {
    } else if s[0] == ':' {
      var rest := Split(s[1..]);
      assert Split(s) == [[]] + rest;
      if n == 1 {
        assert Take(Split(s), n) == [[]];
      } else {
        TakeFieldsIsPrefix(s[1..], n - 1);
        var t := Take(rest, n - 1);
        assert Take(Split(s), n) == [[]] + t;
        assert ([[]] + t)[1..] == t;
      }
    } else {
      var rest := Split(s[1..]);
      TakeFieldsIsPrefix(s[1..], n);
      var t := Take(rest, n);
      assert Take(Split(s), n) == [[s[0]] + rest[0]] + t[1..];
      JoinCons(s[0], rest[0], t[1..]);
      assert [rest[0]] + t[1..] == t;
    }
  }

  /**
   * When `p` holds exactly n-1 separators, `p` is the first-n-fields prefix of
   * `u` exactly when `u` starts with `p` and `p` ends at the end of `u` or at
   * a separator.
   */
  lemma {:induction false} FieldsPrefixIff(u: string, n: nat, p: string)
    requires n >= 1 && CountColons(p) == n - 1
    ensures FieldsPrefix(u, n) == p <==> (|p| <= |u| && u[..|p|] == p && (|p| == |u| || u[|p|] == ':'))
    decreases |u|
  {
    if u == [] {
    } else if p == [] {
    } else if u[0] == ':' {
      if n == 1 {
        assert p[0] != ':';
      } else if p[0] != ':' {
        assert FieldsPrefix(u, n)[0] != p[0];
      } else {
        FieldsPrefixIff(u[1..], n - 1, p[1..]);
        if |p| <= |u| && u[..|p|] == p {
          assert u[1..][..|p| - 1] == p[1..];
        }
        if FieldsPrefix(u[1..], n - 1) == p[1..] {
          assert p == [':'] + p[1..];
        }
      }
    } else {
      if p[0] == ':' {
        assert FieldsPrefix(u, n)[0] != p[0];
      } else {
        FieldsPrefixIff(u[1..], n, p[1..]);
        if |p| <= |u| && u[..|p|] == p {
          assert u[1..][..|p| - 1] == p[1..];
        }
        if FieldsPrefix(u[1..], n) == p[1..] {
          assert p == [p[0]] + p[1..];
        }
      }
    }
  }
}
