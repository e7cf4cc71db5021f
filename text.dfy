/** String functions the PHP and JavaScript code relies on: `explode` / `split`
    on one character, ASCII case mapping, decimal digits, and PHP's `dirname`,
    `basename` and `pathinfo(..., PATHINFO_EXTENSION)`. */
module Text {

  // ---------------------------------------------------------------------------
  // Splitting on one character (PHP explode, JavaScript String.prototype.split)
  // ---------------------------------------------------------------------------

  /** The position of the first `c` in `s`. */
  function IndexOf(s: string, c: char): (i: nat)
    requires c in s
    ensures i < |s| && s[i] == c && c !in s[..i]
  {
    if s[0] == c then 0 else 1 + IndexOf(s[1..], c)
  }

  /** `explode(c, s)`; JavaScript's `s.split(c)` gives the same parts. */
  function Split(s: string, c: char): (parts: seq<string>)
    ensures |parts| >= 1
    ensures forall k :: 0 <= k < |parts| ==> c !in parts[k]
    decreases |s|
  {
    if c !in s then [s]
    else
      var i := IndexOf(s, c);
      [s[..i]] + Split(s[i + 1..], c)
  }

  /** `implode(c, parts)`. */
  function Join(parts: seq<string>, c: char): string
    requires |parts| >= 1
  {
    if |parts| == 1 then parts[0] else parts[0] + [c] + Join(parts[1..], c)
  }

  /** Joining the parts of a split gives the string back. */
  lemma {:induction false} JoinSplit(s: string, c: char)
    ensures Join(Split(s, c), c) == s
    decreases |s|
  {
    if c in s {
      var i := IndexOf(s, c);
      var rest := Split(s[i + 1..], c);
      var parts := Split(s, c);
      assert parts == [s[..i]] + rest;
      assert parts[1..] == rest;
      JoinSplit(s[i + 1..], c);
      assert Join(parts, c) == s[..i] + [c] + Join(rest, c);
      assert s == s[..i] + [c] + s[i + 1..];
    }
  }

  /** The first separator is the one right after a prefix that has none. */
  lemma {:induction false} IndexOfAfterPrefix(a: string, b: string, c: char)
    requires c !in a
    ensures c in a + [c] + b && IndexOf(a + [c] + b, c) == |a|
  {
    var s := a + [c] + b;
    assert s[|a|] == c;
    if a != [] {
      assert s[1..] == a[1..] + [c] + b;
      IndexOfAfterPrefix(a[1..], b, c);
    }
  }

  /** Splitting peels off a leading part that has no separator. */
  lemma SplitAfterPrefix(a: string, b: string, c: char)
    requires c !in a
    ensures Split(a + [c] + b, c) == [a] + Split(b, c)
  {
    var s := a + [c] + b;
    IndexOfAfterPrefix(a, b, c);
    assert s[..|a|] == a;
    assert s[|a| + 1..] == b;
  }

  /** Splitting joined parts that do not contain the separator gives the parts back. */
  lemma {:induction false} SplitJoin(parts: seq<string>, c: char)
    requires |parts| >= 1
    requires forall k :: 0 <= k < |parts| ==> c !in parts[k]
    ensures Split(Join(parts, c), c) == parts
  {
    if |parts| > 1 {
      var rest := Join(parts[1..], c);
      assert Join(parts, c) == parts[0] + [c] + rest;
      SplitAfterPrefix(parts[0], rest, c);
      SplitJoin(parts[1..], c);
      assert parts == [parts[0]] + parts[1..];
    }
  }

  /** The two-part case used for "WxH" dimension strings. */
  lemma SplitPair(a: string, b: string, c: char)
    requires c !in a && c !in b
    ensures Split(a + [c] + b, c) == [a, b]
  {
    var parts := [a, b];
    assert Join(parts, c) == a + [c] + b by {
      assert Join(parts[1..], c) == b;
    }
    SplitJoin(parts, c);
  }

  // ---------------------------------------------------------------------------
  // ASCII case mapping (PHP 8 strtolower / strtoupper are locale-insensitive)
  // ---------------------------------------------------------------------------

  function LowerChar(c: char): char {
    if 'A' <= c <= 'Z' then (c as int + 32) as char else c
  }

  function UpperChar(c: char): char {
    if 'a' <= c <= 'z' then (c as int - 32) as char else c
  }

  function ToLower(s: string): (r: string)
    ensures |r| == |s| && forall i :: 0 <= i < |s| ==> r[i] == LowerChar(s[i])
  {
    if s == [] then [] else [LowerChar(s[0])] + ToLower(s[1..])
  }

  function ToUpper(s: string): (r: string)
    ensures |r| == |s| && forall i :: 0 <= i < |s| ==> r[i] == UpperChar(s[i])
  {
    if s == [] then [] else [UpperChar(s[0])] + ToUpper(s[1..])
  }

  // ---------------------------------------------------------------------------
  // Decimal digits
  // ---------------------------------------------------------------------------

  predicate IsDigit(c: char) {
    '0' <= c <= '9'
  }

  function DigitValue(c: char): nat
    requires IsDigit(c)
  {
    c as int - '0' as int
  }

  function DigitChar(d: nat): (c: char)
    requires d < 10
    ensures IsDigit(c) && DigitValue(c) == d
  {
    ('0' as int + d) as char
  }

  /** The value of a string of decimal digits (most significant first). */
  function DecimalValue(d: string): nat
    requires forall k :: 0 <= k < |d| ==> IsDigit(d[k])
  {
    if d == [] then 0 else 10 * DecimalValue(d[..|d| - 1]) + DigitValue(d[|d| - 1])
  }

  /** The decimal representation of `n` without leading zeros, as PHP's
      `(string)` and JavaScript's `String()` write a non-negative integer. */
  function Show(n: nat): (s: string)
    ensures |s| >= 1 && forall k :: 0 <= k < |s| ==> IsDigit(s[k])
  {
    if n < 10 then [DigitChar(n)] else Show(n / 10) + [DigitChar(n % 10)]
  }

  lemma {:induction false} DecimalShow(n: nat)
    ensures DecimalValue(Show(n)) == n
  {
    var s := Show(n);
    if n >= 10 {
      DecimalShow(n / 10);
      assert s[..|s| - 1] == Show(n / 10);
    }
  }

  /** A signed integer in decimal, with a leading '-' when negative. */
  function ShowInt(i: int): string {
    if i < 0 then "-" + Show(-i) else Show(i)
  }

  // ---------------------------------------------------------------------------
  // PHP path functions (Unix flavour: only '/' separates)
  // ---------------------------------------------------------------------------

  /** `s` without its trailing '/' characters. */
  function TrimTrailingSlashes(s: string): (r: string)
    ensures |r| <= |s|
  {
    if s != [] && s[|s| - 1] == '/' then TrimTrailingSlashes(s[..|s| - 1]) else s
  }

  /** The trimmed string is the longest prefix that does not end in '/'. */
  lemma {:induction false} TrimTrailingSlashesSpec(s: string)
    ensures var r := TrimTrailingSlashes(s);
            r <= s && (r == [] || r[|r| - 1] != '/') && forall k :: |r| <= k < |s| ==> s[k] == '/'
  {
    if s != [] && s[|s| - 1] == '/' {
      TrimTrailingSlashesSpec(s[..|s| - 1]);
    }
  }

  /** The longest suffix of `s` that holds no `c`. */
  function AfterLast(s: string, c: char): (r: string)
    ensures |r| <= |s|
  {
    if s == [] then []
    else if s[|s| - 1] == c then []
    else AfterLast(s[..|s| - 1], c) + [s[|s| - 1]]
  }

  /** The suffix holds no `c`, and whatever precedes it ends in `c`. */
  lemma {:induction false} AfterLastSpec(s: string, c: char)
    ensures var r := AfterLast(s, c);
            && r == s[|s| - |r|..] && c !in r
            && (|r| < |s| ==> s[|s| - |r| - 1] == c)
  {
    if s != [] && s[|s| - 1] != c {
      var init := s[..|s| - 1];
      AfterLastSpec(init, c);
      var r := AfterLast(init, c);
      assert init[|init| - |r|..] + [s[|s| - 1]] == s[|s| - |r| - 1..];
    }
  }

  /** PHP `basename($p)`: the last component, trailing slashes ignored. */
  function Basename(p: string): (r: string)
    ensures '/' !in r
    ensures |r| <= |TrimTrailingSlashes(p)| && r == TrimTrailingSlashes(p)[|TrimTrailingSlashes(p)| - |r|..]
  {
    AfterLastSpec(TrimTrailingSlashes(p), '/');
    AfterLast(TrimTrailingSlashes(p), '/')
  }

  /** PHP `dirname($p)`, following zend_dirname: strip trailing slashes, then
      the last component, then the slashes before it; "." when there is no
      slash, "/" when only slashes remain, "" for the empty path. */
  function Dirname(p: string): string {
    if p == [] then ""
    else
      var a := TrimTrailingSlashes(p);
      if a == [] then "/"
      else
        var b := a[..|a| - |AfterLast(a, '/')|];
        if b == [] then "."
        else
          var c := TrimTrailingSlashes(b);
          if c == [] then "/" else c
  }

  /** PHP `pathinfo($p, PATHINFO_EXTENSION)`: what follows the last '.' of the
      basename, or "" when the basename has no '.'. */
  function Extension(p: string): (r: string)
    ensures '.' !in r && '/' !in r
  {
    var b := Basename(p);
    AfterLastSpec(b, '.');
    if '.' in b then AfterLast(b, '.') else ""
  }

  /** Joining a directory and a file name with '/' is undone by dirname and
      basename, as long as the directory is not empty, does not end in '/',
      and the name is a single non-empty component. */
  lemma DirnameBasenameJoin(dir: string, name: string)
    requires dir != [] && dir[|dir| - 1] != '/'
    requires name != [] && '/' !in name
    ensures Dirname(dir + "/" + name) == dir
    ensures Basename(dir + "/" + name) == name
  {
    var p := dir + "/" + name;
    assert TrimTrailingSlashes(p) == p;
    AfterLastOfJoin(dir, name);
    assert p[..|p| - |name|] == dir + "/";
    assert TrimTrailingSlashes(dir + "/") == TrimTrailingSlashes(dir);
    assert TrimTrailingSlashes(dir) == dir;
  }

  lemma {:induction false} AfterLastOfJoin(dir: string, name: string)
    requires '/' !in name
    ensures AfterLast(dir + "/" + name, '/') == name
    decreases |name|
  {
    if name != [] {
      var p := dir + "/" + name;
      var m := name[..|name| - 1];
      assert p[..|p| - 1] == dir + "/" + m;
      AfterLastOfJoin(dir, m);
      assert name == m + [name[|name| - 1]];
    }
  }
}
