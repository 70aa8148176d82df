/**
  Slash-separated path strings and the handful of path and string helpers the
  organizer uses: the last element of a path, its extension, its directory,
  joining, ASCII lower-casing and prefix/suffix tests.
  Paths are taken to be already clean: the removal of "." and ".." elements
  and of doubled separators that Go's filepath.Clean performs is not modelled.
*/
module Paths {

  type Path = string

  /** Lower-cases one ASCII letter and leaves every other character alone. */
  function LowerChar(c: char): (r: char)
    ensures 'A' <= c <= 'Z' ==> r as int == c as int + 32
    ensures !('A' <= c <= 'Z') ==> r == c
  {
    if 'A' <= c <= 'Z' then (c as int + 32) as char else c
  }

  /** Character-wise lower-casing of a string. */
  function Lower(s: string): (r: string)
    ensures |r| == |s|
    ensures forall i :: 0 <= i < |s| ==> r[i] == LowerChar(s[i])
  {
    seq(|s|, i requires 0 <= i < |s| => LowerChar(s[i]))
  }

  lemma LowerIdempotent(s: string)
    ensures Lower(Lower(s)) == Lower(s)
  {
    assert forall i :: 0 <= i < |s| ==> LowerChar(LowerChar(s[i])) == LowerChar(s[i]);
  }

  predicate HasPrefix(s: string, prefix: string) {
    |prefix| <= |s| && s[..|prefix|] == prefix
  }

  predicate HasSuffix(s: string, suffix: string) {
    |suffix| <= |s| && s[|s| - |suffix|..] == suffix
  }

  /** The part of `p` after its last '/', the whole of `p` when it has none. */
  function AfterLastSlash(p: string): (r: string)
    ensures HasSuffix(p, r)
    ensures |r| < |p| ==> p[|p| - |r| - 1] == '/'
  {
    if p == [] then []
    else if p[|p| - 1] == '/' then []
    else AfterLastSlash(p[..|p| - 1]) + [p[|p| - 1]]
  }

  /** The last element never holds a separator. */
  lemma {:induction false} AfterLastSlashHasNoSlash(p: string)
    ensures '/' !in AfterLastSlash(p)
  {
    if p != [] && p[|p| - 1] != '/' {
      AfterLastSlashHasNoSlash(p[..|p| - 1]);
    }
  }

  /** `p` without its trailing separators. */
  function StripTrailingSlashes(p: string): (r: string)
    ensures |r| <= |p|
    ensures r == [] || r[|r| - 1] != '/'
  {
    if p != [] && p[|p| - 1] == '/' then StripTrailingSlashes(p[..|p| - 1]) else p
  }

  /**
    The last element of a path, as filepath.Base returns it: "." for the
    empty path, "/" for a path made only of separators, and otherwise the text
    after the last separator once trailing separators are dropped.
  */
  function Base(p: Path): (r: string)
    ensures r != []
    ensures p != [] && p[|p| - 1] != '/' ==> r == AfterLastSlash(p)
  {
    if p == [] then "."
    else
      var q := StripTrailingSlashes(p);
      if q == [] then "/" else AfterLastSlash(q)
  }

  /** The suffix of a slash-free name from its last '.', or "" if it has no '.'. */
  function ExtOf(name: string): (r: string)
    ensures HasSuffix(name, r)
    ensures r == [] || r[0] == '.'
  {
    if name == [] then []
    else if name[|name| - 1] == '.' then "."
    else
      var e := ExtOf(name[..|name| - 1]);
      assert name == name[..|name| - 1] + [name[|name| - 1]];
      if e == [] then [] else e + [name[|name| - 1]]
  }

  /** filepath.Ext: the extension of the last element, scanning back to the last separator. */
  function Ext(p: Path): (r: string)
    ensures HasSuffix(AfterLastSlash(p), r)
    ensures r == [] || r[0] == '.'
  {
    ExtOf(AfterLastSlash(p))
  }

  /**
    filepath.Dir: everything before the last separator, without trailing
    separators; "." when there is no separator and "/" when only the root is left.
  */
  function Dir(p: Path): (r: Path)
    ensures r != []
    ensures |AfterLastSlash(p)| == |p| ==> r == "."
  {
    var last := AfterLastSlash(p);
    if |last| == |p| then "."
    else
      var d := StripTrailingSlashes(p[..|p| - |last| - 1]);
      if d == [] then "/" else d
  }

  /** filepath.Join of a directory and one name, for clean arguments. */
  function Join(dir: Path, name: string): (r: Path)
    ensures HasSuffix(r, name)
  {
    if dir == [] || dir == "." then name
    else if dir[|dir| - 1] == '/' then dir + name
    else dir + "/" + name
  }

  /** strings.TrimSuffix. */
  function TrimSuffix(s: string, suffix: string): (r: string)
    ensures HasSuffix(s, suffix) ==> r + suffix == s
    ensures !HasSuffix(s, suffix) ==> r == s
  {
    if HasSuffix(s, suffix) then s[..|s| - |suffix|] else s
  }

  /** Decimal digits of a natural number, as fmt's %d prints it. */
  function Decimal(n: nat): (r: string)
    ensures r != []
  {
    if n < 10 then [('0' as int + n) as char]
    else Decimal(n / 10) + [('0' as int + n % 10) as char]
  }

  /** The number a string of decimal digits denotes, most significant digit first. */
  function DecimalValue(s: string): int {
    if s == [] then 0
    else DecimalValue(s[..|s| - 1]) * 10 + (s[|s| - 1] as int - '0' as int)
  }

  /** Decimal prints digits only, and reading them back gives the number. */
  lemma {:induction false} DecimalRoundTrip(n: nat)
    ensures forall i :: 0 <= i < |Decimal(n)| ==> '0' <= Decimal(n)[i] <= '9'
    ensures DecimalValue(Decimal(n)) == n
  {
    var r := Decimal(n);
    if n >= 10 {
      DecimalRoundTrip(n / 10);
      assert r[..|r| - 1] == Decimal(n / 10);
    }
  }

  /** Different counters give different names. */
  lemma DecimalInjective(m: nat, n: nat)
    requires Decimal(m) == Decimal(n)
    ensures m == n
  {
    DecimalRoundTrip(m);
    DecimalRoundTrip(n);
  }

  /** A slash-free name is its own last element. */
  lemma {:induction false} AfterLastSlashOfSlashFree(n: string)
    requires '/' !in n
    ensures AfterLastSlash(n) == n
  {
    if n != [] {
      assert '/' !in n[..|n| - 1];
      AfterLastSlashOfSlashFree(n[..|n| - 1]);
    }
  }

  /** Whatever precedes the last separator, the name after it is the last element. */
  lemma {:induction false} AfterLastSlashAfterSeparator(d: string, n: string)
    requires '/' !in n
    ensures AfterLastSlash(d + "/" + n) == n
  {
    if n == [] {
    } else {
      var p := d + "/" + n;
      assert p[..|p| - 1] == d + "/" + n[..|n| - 1];
      assert '/' !in n[..|n| - 1];
      AfterLastSlashAfterSeparator(d, n[..|n| - 1]);
    }
  }

  /** The extension is empty exactly for a name without a dot, and holds no dot after its first character. */
  lemma {:induction false} ExtOfDots(name: string)
    ensures ExtOf(name) == [] <==> '.' !in name
    ensures ExtOf(name) != [] ==> '.' !in ExtOf(name)[1..]
  {
    if name != [] && name[|name| - 1] != '.' {
      var init := name[..|name| - 1];
      ExtOfDots(init);
      assert name == init + [name[|name| - 1]];
      if ExtOf(init) != [] {
        assert ExtOf(name)[1..] == ExtOf(init)[1..] + [name[|name| - 1]];
      }
    }
  }

  /** The directory of `dir/name`, for a slash-free name and a directory without a trailing slash, is `dir`. */
  lemma DirOfChild(dir: Path, name: string)
    requires dir != [] && dir[|dir| - 1] != '/'
    requires name != [] && '/' !in name
    ensures Dir(dir + "/" + name) == dir
  {
    var p := dir + "/" + name;
    AfterLastSlashAfterSeparator(dir, name);
    assert p[..|p| - |name| - 1] == dir;
  }

  /** A trailing dot is an extension of its own. */
  lemma ExtOfAppendDot(name: string)
    ensures ExtOf(name + ".") == "."
  {
    var n := name + ".";
    assert n[|n| - 1] == '.';
  }

  /** Appending a character other than a dot extends an existing extension and creates none. */
  lemma ExtOfAppendChar(name: string, c: char)
    requires c != '.'
    ensures ExtOf(name + [c]) == if ExtOf(name) == [] then [] else ExtOf(name) + [c]
  {
    var n := name + [c];
    assert n[..|n| - 1] == name;
  }

  /** The last element of `dir/name`, for a slash-free name, is that name. */
  lemma BaseOfChild(dir: Path, name: string)
    requires name != [] && '/' !in name
    ensures Base(dir + "/" + name) == name
  {
    var p := dir + "/" + name;
    assert p[|p| - 1] == name[|name| - 1];
    AfterLastSlashAfterSeparator(dir, name);
  }

  /** Joining a slash-free name onto any directory makes that name the last element. */
  lemma BaseOfJoin(dir: Path, name: string)
    requires name != [] && '/' !in name
    ensures Base(Join(dir, name)) == name
  {
    var j := Join(dir, name);
    assert j[|j| - 1] == name[|name| - 1];
    if dir == [] || dir == "." {
      AfterLastSlashOfSlashFree(name);
    } else if dir[|dir| - 1] == '/' {
      var d := dir[..|dir| - 1];
      assert j == d + "/" + name;
      AfterLastSlashAfterSeparator(d, name);
    } else {
      AfterLastSlashAfterSeparator(dir, name);
    }
  }
}
