/** Python's `str.strip()` (no argument) and `str.split(sep)`, the two string
    operations the dictionary reader applies to every line. */
module PyStr {
  import opened Seqs

  /** Python's `str.isspace` for a single character: the characters whose
      bidirectional class is WS, B or S, or whose category is Zs. */
  predicate IsSpace(c: char) {
    var n := c as int;
    (9 <= n <= 13) || (28 <= n <= 32) || n == 0x85 || n == 0xA0 || n == 0x1680
    || (0x2000 <= n <= 0x200A) || n == 0x2028 || n == 0x2029 || n == 0x202F
    || n == 0x205F || n == 0x3000
  }

  predicate AllSpace(s: string) {
    forall i :: 0 <= i < |s| ==> IsSpace(s[i])
  }

  /** Neither starts nor ends with whitespace: what `strip` leaves. */
  predicate Stripped(s: string) {
    s == [] || (!IsSpace(s[0]) && !IsSpace(s[|s| - 1]))
  }

  /** `str.lstrip()`: drops the leading whitespace (see `TrimLeftSpec`). */
  function TrimLeft(s: string): (r: string)
    ensures |r| <= |s|
  {
    if s != [] && IsSpace(s[0]) then TrimLeft(s[1..]) else s
  }

  /** What `lstrip` drops is a run of whitespace, and what it keeps is the
      rest of the string, starting with a non-whitespace character. */
  lemma {:induction false} TrimLeftSpec(s: string)
    ensures TrimLeft(s) == s[|s| - |TrimLeft(s)|..]
    ensures AllSpace(s[..|s| - |TrimLeft(s)|])
    ensures TrimLeft(s) != [] ==> !IsSpace(TrimLeft(s)[0])
    decreases |s|
  {
    if s != [] && IsSpace(s[0]) {
      var t := s[1..];
      TrimLeftSpec(t);
      var r := TrimLeft(t);
      assert TrimLeft(s) == r;
      assert t[|t| - |r|..] == s[|s| - |r|..];
      forall k | 0 <= k < |s| - |r| ensures IsSpace(s[k]) {
        if k > 0 { assert s[k] == t[..|t| - |r|][k - 1]; }
      }
    } else {
      assert s[..0] == [];
    }
  }

  /** `str.rstrip()`: drops the trailing whitespace (see `TrimRightSpec`). */
  function TrimRight(s: string): (r: string)
    ensures |r| <= |s|
  {
    if s != [] && IsSpace(s[|s| - 1]) then TrimRight(s[..|s| - 1]) else s
  }

  /** What `rstrip` drops is a run of whitespace, and what it keeps is the
      rest of the string, ending with a non-whitespace character. */
  lemma {:induction false} TrimRightSpec(s: string)
    ensures TrimRight(s) == s[..|TrimRight(s)|]
    ensures AllSpace(s[|TrimRight(s)|..])
    ensures TrimRight(s) != [] ==> !IsSpace(TrimRight(s)[|TrimRight(s)| - 1])
    decreases |s|
  {
    if s != [] && IsSpace(s[|s| - 1]) {
      var t := s[..|s| - 1];
      TrimRightSpec(t);
      var r := TrimRight(t);
      assert TrimRight(s) == r;
      assert t[..|r|] == s[..|r|];
      forall k | |r| <= k < |s| ensures IsSpace(s[k]) {
        if k < |s| - 1 { assert s[k] == t[|r|..][k - |r|]; }
      }
    } else {
      assert s[|s|..] == [];
    }
  }

  /** `str.strip()`: the middle of `s` between its leading and its trailing
      whitespace (see `StripInfix` and `StripEmpty`). */
  function Strip(s: string): (r: string)
    ensures |r| <= |s|
  {
    TrimRight(TrimLeft(s))
  }

  /** Where the stripped part of `s` starts. */
  function StripStart(s: string): nat {
    |s| - |TrimLeft(s)|
  }

  /** What `strip` keeps is a contiguous part of `s` that neither starts nor
      ends with whitespace, and there is only whitespace on either side of
      it. */
  lemma StripInfix(s: string)
    ensures Stripped(Strip(s))
    ensures StripStart(s) + |Strip(s)| <= |s|
    ensures Strip(s) == s[StripStart(s)..StripStart(s) + |Strip(s)|]
    ensures AllSpace(s[..StripStart(s)])
    ensures AllSpace(s[StripStart(s) + |Strip(s)|..])
  {
    var t := TrimLeft(s);
    TrimLeftSpec(s);
    TrimRightSpec(t);
    var r := TrimRight(t);
    var i := StripStart(s);
    assert Strip(s) == r;
    assert r != [] ==> r[0] == t[0];
    assert r == s[i..i + |r|] by {
      assert t == s[i..];
      assert r == t[..|r|];
    }
    assert s[i + |r|..] == t[|r|..] by {
      assert t == s[i..];
    }
  }

  /** `strip` gives the empty string exactly for all-whitespace input. */
  lemma StripEmpty(s: string)
    ensures Strip(s) == [] <==> AllSpace(s)
  {
    StripInfix(s);
    var i, r := StripStart(s), Strip(s);
    if r == [] {
      forall k | 0 <= k < |s| ensures IsSpace(s[k]) {
        if k < i { assert s[k] == s[..i][k]; } else { assert s[k] == s[i..][k - i]; }
      }
    }
  }

  lemma {:induction false} TrimLeftPadded(pre: string, s: string)
    requires AllSpace(pre)
    requires s == [] || !IsSpace(s[0])
    ensures TrimLeft(pre + s) == s
    decreases |pre|
  {
    if pre != [] {
      assert (pre + s)[1..] == pre[1..] + s;
      TrimLeftPadded(pre[1..], s);
    }
  }

  lemma {:induction false} TrimRightPadded(s: string, post: string)
    requires AllSpace(post)
    requires s == [] || !IsSpace(s[|s| - 1])
    ensures TrimRight(s + post) == s
    decreases |post|
  {
    if post != [] {
      assert (s + post)[..|s + post| - 1] == s + post[..|post| - 1];
      TrimRightPadded(s, post[..|post| - 1]);
    }
  }

  /** Two runs of whitespace make one. */
  lemma AllSpaceAppend(a: string, b: string)
    requires AllSpace(a) && AllSpace(b)
    ensures AllSpace(a + b)
  {
    forall k | |a| <= k < |a + b| ensures IsSpace((a + b)[k]) {
      assert (a + b)[k] == b[k - |a|];
    }
  }

  /** A string is its stripped part with whitespace on either side; a
      character the string lacks is in neither side. */
  lemma FieldParts(x: string, c: char) returns (p: string, q: string)
    requires c !in x
    ensures AllSpace(p) && AllSpace(q) && x == p + Strip(x) + q
    ensures c !in p && c !in q
  {
    StripInfix(x);
    var i, a := StripStart(x), Strip(x);
    p, q := x[..i], x[i + |a|..];
    assert x == p + a + q by {
      assert x == x[..i] + x[i..i + |a|] + x[i + |a|..];
    }
    assert c !in p by {
      forall k | 0 <= k < |p| ensures p[k] != c { assert p[k] == x[k]; }
    }
    assert c !in q by {
      forall k | 0 <= k < |q| ensures q[k] != c { assert q[k] == x[i + |a| + k]; }
    }
  }

  /** Surrounding whitespace is exactly what `strip` removes: a stripped
      string padded on both sides with whitespace strips back to itself. */
  lemma StripPadded(pre: string, s: string, post: string)
    requires AllSpace(pre) && AllSpace(post) && Stripped(s)
    ensures Strip(pre + s + post) == s
  {
    if s == [] {
      StripEmpty(pre + s + post);
      assert AllSpace(pre + s + post) by {
        forall i | 0 <= i < |pre + s + post|
          ensures IsSpace((pre + s + post)[i])
        {
          if i >= |pre| { assert (pre + s + post)[i] == post[i - |pre|]; }
        }
      }
    } else {
      assert pre + s + post == pre + (s + post);
      TrimLeftPadded(pre, s + post);
      TrimRightPadded(s, post);
    }
  }

  /** A string with no surrounding whitespace strips to itself. */
  lemma StripStripped(s: string)
    requires Stripped(s)
    ensures Strip(s) == s
  {
    StripPadded([], s, []);
    assert [] + s + [] == s;
  }

  /** `strip` is idempotent. */
  lemma StripIdempotent(s: string)
    ensures Strip(Strip(s)) == Strip(s)
  {
    StripInfix(s);
    StripStripped(Strip(s));
  }

  /** Number of occurrences of `c` in `s`. */
  function Count(s: string, c: char): nat {
    if s == [] then 0 else (if s[0] == c then 1 else 0) + Count(s[1..], c)
  }

  /** Inverse of `Split`: the fields glued back together with `sep`. */
  function Join(fields: seq<string>, sep: char): string
    requires |fields| >= 1
  {
    if |fields| == 1 then fields[0] else fields[0] + [sep] + Join(fields[1..], sep)
  }

  /** `s.split(sep)` with an explicit one-character separator (see
      `SplitFields` and `SplitJoinsBack`). */
  function Split(s: string, sep: char): (r: seq<string>)
    ensures |r| >= 1
    decreases |s|
  {
    if s == [] then [[]]
    else
      var rest := Split(s[1..], sep);
      if s[0] == sep then [[]] + rest
      else [[s[0]] + rest[0]] + rest[1..]
  }

  /** `split` gives one field more than there are separators, and no field
      holds the separator. */
  lemma {:induction false} SplitFields(s: string, sep: char)
    ensures |Split(s, sep)| == Count(s, sep) + 1
    ensures forall i :: 0 <= i < |Split(s, sep)| ==> sep !in Split(s, sep)[i]
    decreases |s|
  {
    if s != [] {
      var rest := Split(s[1..], sep);
      SplitFields(s[1..], sep);
      var r := Split(s, sep);
      if s[0] == sep {
        assert r == [[]] + rest;
        forall i | 0 < i < |r| ensures sep !in r[i] {
          assert r[i] == rest[i - 1];
        }
      } else {
        assert r == [[s[0]] + rest[0]] + rest[1..];
        forall i | 0 < i < |r| ensures sep !in r[i] {
          assert r[i] == rest[i];
        }
      }
    }
  }

  /** Prefixing the first field with `c` prefixes the joined string. */
  lemma JoinFirst(c: char, fields: seq<string>, sep: char)
    requires |fields| >= 1
    ensures Join([[c] + fields[0]] + fields[1..], sep) == [c] + Join(fields, sep)
  {
    var r := [[c] + fields[0]] + fields[1..];
    assert r[0] == [c] + fields[0] && r[1..] == fields[1..];
    if |fields| > 1 {
      AppendAssoc([c], fields[0], [sep] + Join(fields[1..], sep));
      AppendAssoc([c] + fields[0], [sep], Join(fields[1..], sep));
      AppendAssoc(fields[0], [sep], Join(fields[1..], sep));
    }
  }

  /** Joining the fields of `split` with the separator gives the string
      back. */
  lemma {:induction false} SplitJoinsBack(s: string, sep: char)
    ensures Join(Split(s, sep), sep) == s
    decreases |s|
  {
    if s != [] {
      var rest := Split(s[1..], sep);
      SplitJoinsBack(s[1..], sep);
      if s[0] == sep {
        var r := [[]] + rest;
        assert r[0] == [] && r[1..] == rest;
        assert Join(r, sep) == [] + [sep] + Join(rest, sep);
      } else {
        JoinFirst(s[0], rest, sep);
      }
      assert s == [s[0]] + s[1..];
    }
  }

  /** A string that splits into exactly two fields is the first field, the
      separator and the second field. */
  lemma SplitInTwo(s: string, sep: char)
    requires |Split(s, sep)| == 2
    ensures s == Split(s, sep)[0] + [sep] + Split(s, sep)[1]
    ensures sep !in Split(s, sep)[0] && sep !in Split(s, sep)[1]
  {
    SplitFields(s, sep);
    SplitJoinsBack(s, sep);
    var r := Split(s, sep);
    assert r[1..] == [r[1]];
  }

  /** Two separator-free fields joined by the separator split back into the
      two fields. */
  lemma SplitPair(a: string, sep: char, b: string)
    requires sep !in a && sep !in b
    ensures Split(a + [sep] + b, sep) == [a, b]
  {
    SplitCons(a, sep, b);
    SplitNoSep(b, sep);
  }

  lemma {:induction false} SplitNoSep(a: string, sep: char)
    requires sep !in a
    ensures Split(a, sep) == [a]
    decreases |a|
  {
    if a != [] {
      assert sep !in a[1..] by {
        forall k | 0 <= k < |a[1..]| ensures a[1..][k] != sep { assert a[1..][k] == a[k + 1]; }
      }
      SplitNoSep(a[1..], sep);
      assert [a[0]] + a[1..] == a;
    }
  }

  lemma {:induction false} SplitCons(a: string, sep: char, rest: string)
    requires sep !in a
    ensures Split(a + [sep] + rest, sep) == [a] + Split(rest, sep)
    decreases |a|
  {
    var s := a + [sep] + rest;
    if a == [] {
      assert s[1..] == rest;
    } else {
      assert s[1..] == a[1..] + [sep] + rest;
      assert sep !in a[1..] by {
        forall k | 0 <= k < |a[1..]| ensures a[1..][k] != sep { assert a[1..][k] == a[k + 1]; }
      }
      SplitCons(a[1..], sep, rest);
      assert [a[0]] + a[1..] == a;
    }
  }

  /** `Split` undoes `Join` when no field holds the separator. */
  lemma {:induction false} SplitJoin(fields: seq<string>, sep: char)
    requires |fields| >= 1
    requires forall i :: 0 <= i < |fields| ==> sep !in fields[i]
    ensures Split(Join(fields, sep), sep) == fields
    decreases |fields|
  {
    if |fields| == 1 {
      SplitNoSep(fields[0], sep);
    } else {
      SplitJoin(fields[1..], sep);
      SplitCons(fields[0], sep, Join(fields[1..], sep));
      assert fields == [fields[0]] + fields[1..];
    }
  }
}
