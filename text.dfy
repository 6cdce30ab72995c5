/** String operations the core relies on: decimal rendering (`%d`), strconv.Atoi,
    strings.Join, filepath.Base on slash-separated paths, and SQL LIKE matching. */
module Text {
  import opened Common

  const MinInt64: int := -0x8000_0000_0000_0000
  const MaxInt64: int := 0x7FFF_FFFF_FFFF_FFFF

  predicate IsDigit(c: char) { '0' <= c <= '9' }

  predicate IsDigits(s: string) { forall i :: 0 <= i < |s| ==> IsDigit(s[i]) }

  function DigitChar(d: nat): (c: char)
    requires d < 10
    ensures IsDigit(c) && c as int - '0' as int == d
  {
    ('0' as int + d) as char
  }

  function DigitsValue(s: string): nat
    requires IsDigits(s)
  {
    if s == [] then 0 else DigitsValue(s[..|s| - 1]) * 10 + (s[|s| - 1] as int - '0' as int)
  }

  /** `%d` of a non-negative number: its decimal digits, most significant first. */
  function NatToString(n: nat): (s: string)
    ensures |s| > 0 && IsDigits(s)
    ensures DigitsValue(s) == n
  {
    if n < 10 then
      var s := [DigitChar(n)];
      assert s[..0] == [];
      s
    else
      var s := NatToString(n / 10) + [DigitChar(n % 10)];
      assert s[..|s| - 1] == NatToString(n / 10);
      s
  }

  /** `%d` of any int: a minus sign for negative numbers, then the digits. */
  function IntToString(n: int): (s: string)
    ensures |s| > 0
    ensures n >= 0 <==> IsDigit(s[0])
    ensures n < 0 <==> s[0] == '-'
  {
    if n < 0 then "-" + NatToString(-n) else NatToString(n)
  }

  /** strconv.Atoi on a 64-bit platform: an optional sign followed by at least one
      decimal digit, and a value within the int64 range; anything else is an error. */
  function Atoi(s: string): (r: Option<int>)
    ensures r.Some? ==> MinInt64 <= r.value <= MaxInt64
    ensures r.Some? ==> |s| > 0 && IsDigits(if s[0] == '+' || s[0] == '-' then s[1..] else s)
  {
    if |s| == 0 then None
    else
      var digits := if s[0] == '+' || s[0] == '-' then s[1..] else s;
      if |digits| == 0 || !IsDigits(digits) then None
      else
        var v: int := if s[0] == '-' then 0 - DigitsValue(digits) else DigitsValue(digits);
        if MinInt64 <= v <= MaxInt64 then Some(v) else None
  }

  /** Parsing what `%d` printed gives the number back, for every int64. */
  lemma AtoiIntToString(n: int)
    requires MinInt64 <= n <= MaxInt64
    ensures Atoi(IntToString(n)) == Some(n)
  {
    var s := IntToString(n);
    if n < 0 {
      assert s[1..] == NatToString(-n);
    } else {
      assert s[0] != '+' && s[0] != '-';
    }
  }

  /** strings.Join. */
  function Join(parts: seq<string>, sep: string): (r: string)
    ensures parts == [] ==> r == ""
    ensures |parts| == 1 ==> r == parts[0]
  {
    if parts == [] then ""
    else if |parts| == 1 then parts[0]
    else parts[0] + sep + Join(parts[1..], sep)
  }

  /** Appending one more part is what the use cases' `q += " AND " + clause` does. */
  lemma {:induction false} JoinSnoc(parts: seq<string>, p: string, sep: string)
    ensures Join(parts + [p], sep) == if parts == [] then p else Join(parts, sep) + sep + p
  {
    if |parts| > 1 {
      assert (parts + [p])[1..] == parts[1..] + [p];
      JoinSnoc(parts[1..], p, sep);
    }
  }

  /** Parts that are never empty join to the empty string only when there are none. */
  lemma {:induction false} JoinEmpty(parts: seq<string>, sep: string)
    requires forall k :: 0 <= k < |parts| ==> parts[k] != ""
    ensures Join(parts, sep) == "" <==> parts == []
  {
    if |parts| > 1 {
      assert |Join(parts, sep)| >= |parts[0]| > 0;
    }
  }

  function StripTrailingSlashes(p: string): (r: string)
    ensures |r| <= |p| && r == p[..|r|]
    ensures r == [] || r[|r| - 1] != '/'
    ensures forall k :: |r| <= k < |p| ==> p[k] == '/'
  {
    if p != [] && p[|p| - 1] == '/' then StripTrailingSlashes(p[..|p| - 1]) else p
  }

  function AfterLastSlash(p: string): (r: string)
    ensures |r| <= |p| && r == p[|p| - |r|..]
    ensures '/' !in r
    ensures |r| < |p| ==> p[|p| - |r| - 1] == '/'
  {
    if p == [] || p[|p| - 1] == '/' then []
    else
      var r := AfterLastSlash(p[..|p| - 1]) + [p[|p| - 1]];
      assert p[..|p| - 1][|p| - |r|..] + [p[|p| - 1]] == p[|p| - |r|..];
      r
  }

  /** filepath.Base on a slash-separated path: "." for the empty path, "/" for a path of
      slashes only, and otherwise the last element after trailing slashes are removed. */
  function PathBase(path: string): (r: string)
    ensures r != ""
    ensures r == "/" || '/' !in r
  {
    if path == [] then "."
    else
      var last := AfterLastSlash(StripTrailingSlashes(path));
      if last == [] then "/" else last
  }

  lemma {:induction false} AfterLastSlashOfJoin(dir: string, name: string)
    requires '/' !in name
    ensures AfterLastSlash(dir + "/" + name) == name
    decreases |name|
  {
    var p := dir + "/" + name;
    if name != [] {
      var init := name[..|name| - 1];
      assert p[..|p| - 1] == dir + "/" + init;
      assert p[|p| - 1] == name[|name| - 1];
      AfterLastSlashOfJoin(dir, init);
      assert init + [name[|name| - 1]] == name;
    }
  }

  /** The base of `dir/name` is `name`, for a name that holds no slash. */
  lemma PathBaseOfJoin(dir: string, name: string)
    requires name != "" && '/' !in name
    ensures PathBase(dir + "/" + name) == name
  {
    var p := dir + "/" + name;
    assert p[|p| - 1] == name[|name| - 1];
    assert StripTrailingSlashes(p) == p;
    AfterLastSlashOfJoin(dir, name);
  }

  /** The base of a name without slashes is the name itself. */
  lemma PathBaseOfName(name: string)
    requires name != "" && '/' !in name
    ensures PathBase(name) == name
  {
    assert name[|name| - 1] in name;
    assert StripTrailingSlashes(name) == name;
    var r := AfterLastSlash(name);
    assert forall k :: 0 <= k < |name| ==> name[k] != '/';
  }

  predicate NoWildcards(s: string) { '%' !in s && '_' !in s }

  /** SQL LIKE: `%` matches any run of characters and `_` any single one; every other
      pattern character matches itself. */
  function LikeMatch(s: string, p: string): bool
    decreases |s| + |p|
  {
    if p == [] then s == []
    else if p[0] == '%' then LikeMatch(s, p[1..]) || (s != [] && LikeMatch(s[1..], p))
    else s != [] && (p[0] == '_' || s[0] == p[0]) && LikeMatch(s[1..], p[1..])
  }

  /** `n` occurs in `s` at some position. */
  ghost predicate Occurs(n: string, s: string)
  {
    exists i :: 0 <= i <= |s| && n <= s[i..]
  }

  lemma {:induction false} LikeLiteral(s: string, p: string)
    requires NoWildcards(p)
    ensures LikeMatch(s, p) <==> s == p
    decreases |p|
  {
    if p != [] && s != [] {
      LikeLiteral(s[1..], p[1..]);
      assert s == [s[0]] + s[1..] && p == [p[0]] + p[1..];
    }
  }

  lemma {:induction false} LikeAnything(s: string)
    ensures LikeMatch(s, "%")
    decreases |s|
  {
    if s != [] {
      LikeAnything(s[1..]);
    }
  }

  lemma {:induction false} LikePrefix(s: string, n: string)
    requires NoWildcards(n)
    ensures LikeMatch(s, n + "%") <==> n <= s
    decreases |n|
  {
    if n == [] {
      LikeAnything(s);
      assert n + "%" == "%";
    } else {
      var p := n + "%";
      assert p[0] == n[0] && p[1..] == n[1..] + "%";
      if s != [] {
        LikePrefix(s[1..], n[1..]);
        assert n <= s <==> n[0] == s[0] && n[1..] <= s[1..];
      }
    }
  }

  lemma {:induction false} LikeLeadingPercent(s: string, q: string)
    ensures LikeMatch(s, "%" + q) <==> exists i :: 0 <= i <= |s| && LikeMatch(s[i..], q)
    decreases |s|
  {
    var p := "%" + q;
    assert p[0] == '%' && p[1..] == q;
    assert s[0..] == s;
    if s != [] {
      LikeLeadingPercent(s[1..], q);
      if exists i :: 0 <= i <= |s| && LikeMatch(s[i..], q) {
        var i :| 0 <= i <= |s| && LikeMatch(s[i..], q);
        if i > 0 {
          assert s[1..][i - 1..] == s[i..];
        }
      }
      if exists i :: 0 <= i <= |s[1..]| && LikeMatch(s[1..][i..], q) {
        var i :| 0 <= i <= |s[1..]| && LikeMatch(s[1..][i..], q);
        assert s[1..][i..] == s[i + 1..];
      }
    }
  }

  /** `name LIKE '%n%'` holds exactly when `n` occurs in `name`, for a wildcard-free `n`. */
  lemma LikeContains(s: string, n: string)
    requires NoWildcards(n)
    ensures LikeMatch(s, "%" + n + "%") <==> Occurs(n, s)
  {
    assert "%" + n + "%" == "%" + (n + "%");
    LikeLeadingPercent(s, n + "%");
    forall i | 0 <= i <= |s| ensures LikeMatch(s[i..], n + "%") <==> n <= s[i..] {
      LikePrefix(s[i..], n);
    }
  }
}
