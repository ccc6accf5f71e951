/**
  Character classes, decimal numerals and the handful of Python string
  operations that the frame, path and sequence code of the add-on relies on.
  Strings are `seq<char>`; only the behaviour the add-on uses is modelled.
 */
module Text {

  /** An ASCII decimal digit (what `\d` and `str.isdigit` accept in this model). */
  predicate IsDigit(c: char) {
    '0' <= c <= '9'
  }

  /** Python's `str.isspace` / regex `\s` on a `str`: every Unicode white-space code point. */
  predicate IsSpace(c: char) {
    var n := c as int;
    (0x09 <= n <= 0x0D) || (0x1C <= n <= 0x20) || n == 0x85 || n == 0xA0 ||
    n == 0x1680 || (0x2000 <= n <= 0x200A) || n == 0x2028 || n == 0x2029 ||
    n == 0x202F || n == 0x205F || n == 0x3000
  }

  /** Regex `\w` restricted to ASCII: letters, digits and the underscore. */
  predicate IsWordChar(c: char) {
    IsDigit(c) || ('a' <= c <= 'z') || ('A' <= c <= 'Z') || c == '_'
  }

  predicate AllDigits(s: string) {
    forall i :: 0 <= i < |s| ==> IsDigit(s[i])
  }

  /** ASCII lower-casing, the part of `str.lower` and `re.IGNORECASE` the model keeps. */
  function Lower(c: char): (r: char)
    ensures IsDigit(r) <==> IsDigit(c)
  {
    if 'A' <= c <= 'Z' then (c as int + 32) as char else c
  }

  function LowerString(s: string): (r: string)
    ensures |r| == |s|
    ensures forall i :: 0 <= i < |s| ==> r[i] == Lower(s[i])
  {
    if s == [] then [] else [Lower(s[0])] + LowerString(s[1..])
  }

  function DigitChar(d: nat): (c: char)
    requires d < 10
    ensures IsDigit(c)
  {
    ('0' as int + d) as char
  }

  function DigitValue(c: char): (d: nat)
    requires IsDigit(c)
    ensures d < 10 && DigitChar(d) == c
  {
    c as int - '0' as int
  }

  /** The number a string of decimal digits denotes (leading zeros allowed, `""` is 0). */
  function DigitsValue(s: string): nat
    requires AllDigits(s)
  {
    if s == [] then 0 else DigitsValue(s[..|s| - 1]) * 10 + DigitValue(s[|s| - 1])
  }

  /** `str(n)` for a natural number: the shortest decimal numeral. */
  function NatToString(n: nat): (s: string)
    ensures |s| > 0 && AllDigits(s)
    ensures |s| > 1 ==> s[0] != '0'
    decreases n
  {
    if n < 10 then [DigitChar(n)] else NatToString(n / 10) + [DigitChar(n % 10)]
  }

  /** `str(n)` for an integer. */
  function IntToString(n: int): (s: string)
    ensures |s| > 0
    ensures n < 0 ==> s == "-" + NatToString(-n)
    ensures n >= 0 ==> s == NatToString(n)
  {
    if n < 0 then "-" + NatToString(-n) else NatToString(n)
  }

  lemma {:induction false} NatToStringValue(n: nat)
    ensures DigitsValue(NatToString(n)) == n
    decreases n
  {
    if n >= 10 {
      var s := NatToString(n);
      NatToStringValue(n / 10);
      assert s[..|s| - 1] == NatToString(n / 10);
    }
  }

  /** A numeral written by `str` reads back as the same number. */
  lemma IntToStringValue(n: int)
    ensures n >= 0 ==> AllDigits(IntToString(n)) && DigitsValue(IntToString(n)) == n
    ensures n < 0 ==> IntToString(n)[0] == '-' && AllDigits(IntToString(n)[1..])
                      && DigitsValue(IntToString(n)[1..]) == -n
  {
    if n < 0 {
      NatToStringValue(-n);
      assert IntToString(n)[1..] == NatToString(-n);
    } else {
      NatToStringValue(n);
    }
  }

  /** `"0" * k`. */
  function Zeros(k: nat): (s: string)
    ensures |s| == k && AllDigits(s)
    ensures forall i :: 0 <= i < k ==> s[i] == '0'
  {
    if k == 0 then [] else "0" + Zeros(k - 1)
  }

  lemma {:induction false} ZerosValue(k: nat, s: string)
    requires AllDigits(s)
    ensures DigitsValue(Zeros(k) + s) == DigitsValue(s)
    decreases |s|
  {
    if s == [] {
      ZerosValueAlone(k);
      assert Zeros(k) + s == Zeros(k);
    } else {
      var t := Zeros(k) + s;
      assert t[..|t| - 1] == Zeros(k) + s[..|s| - 1];
      ZerosValue(k, s[..|s| - 1]);
    }
  }

  lemma {:induction false} ZerosValueAlone(k: nat)
    ensures DigitsValue(Zeros(k)) == 0
    decreases k
  {
    if k > 0 {
      var z := Zeros(k);
      assert z[..k - 1] == Zeros(k - 1);
      ZerosValueAlone(k - 1);
    }
  }

  /** Left-pad a digit string with zeros to at least `width` characters. */
  function PadDigits(digits: string, width: nat): (s: string)
    ensures |s| == if |digits| >= width then |digits| else width
    ensures s == Zeros(|s| - |digits|) + digits
  {
    Zeros(if |digits| >= width then 0 else width - |digits|) + digits
  }

  /**
    Python's `str.zfill(width)`: pad with zeros to `width` characters, keeping
    a leading sign in front of the zeros.
   */
  function ZFill(s: string, width: nat): (r: string)
    ensures |r| == if |s| >= width then |s| else width
  {
    if |s| >= width then s
    else if |s| > 0 && (s[0] == '-' || s[0] == '+') then [s[0]] + Zeros(width - |s|) + s[1..]
    else Zeros(width - |s|) + s
  }

  /** `"{:0{width}d}".format(n)`: the same as `str(n).zfill(width)` for an integer. */
  function PadInt(n: int, width: nat): (s: string)
  {
    ZFill(IntToString(n), width)
  }

  /** A zero-padded non-negative number is all digits and reads back as the number. */
  lemma PadIntValue(n: nat, width: nat)
    ensures AllDigits(PadInt(n, width))
    ensures DigitsValue(PadInt(n, width)) == n
    ensures |PadInt(n, width)| == if |NatToString(n)| >= width then |NatToString(n)| else width
  {
    var s := NatToString(n);
    NatToStringValue(n);
    if |s| < width {
      ZerosValue(width - |s|, s);
    }
  }

  /** `str.startswith`. */
  predicate StartsWith(s: string, prefix: string) {
    |prefix| <= |s| && s[..|prefix|] == prefix
  }

  /** `str.endswith`. */
  predicate EndsWith(s: string, suffix: string) {
    |suffix| <= |s| && s[|s| - |suffix|..] == suffix
  }

  /** `sub` occurs in `s` starting at index `i`. */
  predicate OccursAt(s: string, i: nat, sub: string) {
    i + |sub| <= |s| && s[i..i + |sub|] == sub
  }

  /** `sub in s` for a substring. */
  predicate Contains(s: string, sub: string) {
    exists i: nat | i <= |s| :: OccursAt(s, i, sub)
  }

  /** `str.find(c)` for one character: the first index, or `|s|` when absent. */
  function FindChar(s: string, c: char): (i: nat)
    ensures i <= |s|
    ensures i < |s| ==> s[i] == c
    ensures forall j :: 0 <= j < i ==> s[j] != c
  {
    if s == [] then 0 else if s[0] == c then 0 else 1 + FindChar(s[1..], c)
  }

  /** The index of the last occurrence of `c`, if any. */
  function LastIndexOf(s: string, c: char): (r: int)
    ensures -1 <= r < |s|
    ensures r >= 0 ==> s[r] == c
    ensures forall j :: r < j < |s| ==> s[j] != c
  {
    if s == [] then -1
    else if s[|s| - 1] == c then |s| - 1
    else LastIndexOf(s[..|s| - 1], c)
  }

  /** `s.rstrip(c)` for a single-character argument. */
  function RStrip(s: string, c: char): (r: string)
    ensures StartsWith(s, r)
    ensures r == [] || r[|r| - 1] != c
    ensures forall j :: |r| <= j < |s| ==> s[j] == c
  {
    if s == [] then []
    else if s[|s| - 1] == c then RStrip(s[..|s| - 1], c)
    else s
  }

  /** `s.count(c)` for one character. */
  function Count(s: string, c: char): (n: nat)
    ensures n <= |s|
    ensures n == 0 <==> c !in s
  {
    if s == [] then 0 else (if s[0] == c then 1 else 0) + Count(s[1..], c)
  }

  /** The count is the number of times the character occurs. */
  lemma {:induction false} CountOccurrences(s: string, c: char)
    ensures Count(s, c) == multiset(s)[c]
  {
    if s != [] {
      CountOccurrences(s[1..], c);
      assert s == [s[0]] + s[1..];
      assert multiset(s) == multiset{s[0]} + multiset(s[1..]);
    }
  }

  /** `s.replace(c, "")` for one character. */
  function RemoveChar(s: string, c: char): (r: string)
    ensures c !in r
    ensures |r| == |s| - Count(s, c)
    ensures forall x {:trigger x in r} :: x in r <==> x in s && x != c
  {
    if s == [] then [] else (if s[0] == c then [] else [s[0]]) + RemoveChar(s[1..], c)
  }

  /** Removing a character keeps every other character exactly as often as it occurs. */
  lemma {:induction false} RemoveCharCounts(s: string, c: char)
    ensures forall x :: multiset(RemoveChar(s, c))[x] == if x == c then 0 else multiset(s)[x]
  {
    if s != [] {
      RemoveCharCounts(s[1..], c);
      var head := if s[0] == c then [] else [s[0]];
      assert RemoveChar(s, c) == head + RemoveChar(s[1..], c);
      assert multiset(RemoveChar(s, c)) == multiset(head) + multiset(RemoveChar(s[1..], c));
      assert s == [s[0]] + s[1..];
      assert multiset(s) == multiset{s[0]} + multiset(s[1..]);
    }
  }

  /** Removing a character works piece by piece, so the characters that stay keep their order. */
  lemma {:induction false} RemoveCharAppend(a: string, b: string, c: char)
    ensures RemoveChar(a + b, c) == RemoveChar(a, c) + RemoveChar(b, c)
  {
    if a == [] {
      assert a + b == b;
    } else {
      var head := if a[0] == c then [] else [a[0]];
      calc {
        RemoveChar(a + b, c);
      == { assert a + b == [a[0]] + (a[1..] + b); RemoveCharStep(a[0], a[1..] + b, c); }
        head + RemoveChar(a[1..] + b, c);
      == { RemoveCharAppend(a[1..], b, c); }
        head + (RemoveChar(a[1..], c) + RemoveChar(b, c));
      ==
        (head + RemoveChar(a[1..], c)) + RemoveChar(b, c);
      == { assert [a[0]] + a[1..] == a; RemoveCharStep(a[0], a[1..], c); }
        RemoveChar(a, c) + RemoveChar(b, c);
      }
    }
  }

  /** One step of `RemoveChar`: the first character, then the rest. */
  lemma RemoveCharStep(x: char, s: string, c: char)
    ensures RemoveChar([x] + s, c) == (if x == c then [] else [x]) + RemoveChar(s, c)
  {
    assert ([x] + s)[1..] == s;
  }

  /**
    `s.replace(pat, rep)`: every non-overlapping occurrence of a non-empty
    `pat`, scanning from the left, is replaced by `rep`.
   */
  function Replace(s: string, pat: string, rep: string): (r: string)
    requires |pat| > 0
    decreases |s|
  {
    if s == [] then []
    else if StartsWith(s, pat) then rep + Replace(s[|pat|..], pat, rep)
    else [s[0]] + Replace(s[1..], pat, rep)
  }

  /**
    `s.split(sep)` for a non-empty separator: the pieces between the
    occurrences of `sep` found scanning from the left.
   */
  function Split(s: string, sep: string): (r: seq<string>)
    requires |sep| > 0
    ensures |r| >= 1
    ensures |r| == 1 ==> r == [s]
    ensures StartsWith(s, sep) ==> |r| >= 2
    decreases |s|
  {
    if s == [] then [[]]
    else if StartsWith(s, sep) then [[]] + Split(s[|sep|..], sep)
    else
      var rest := Split(s[1..], sep);
      assert |rest| == 1 ==> [s[0]] + rest[0] == s;
      [[s[0]] + rest[0]] + rest[1..]
  }

  /** Without an occurrence of the separator there is nothing to split. */
  lemma {:induction false} SplitNone(s: string, sep: string)
    requires |sep| > 0
    requires forall j :: 0 <= j <= |s| ==> !OccursAt(s, j, sep)
    ensures Split(s, sep) == [s]
    decreases |s|
  {
    if s != [] {
      assert !OccursAt(s, 0, sep);
      forall j | 0 <= j <= |s[1..]|
        ensures !OccursAt(s[1..], j, sep)
      {
        if OccursAt(s[1..], j, sep) {
          assert s[1..][j..j + |sep|] == s[j + 1..j + 1 + |sep|];
          assert OccursAt(s, j + 1, sep);
        }
      }
      SplitNone(s[1..], sep);
    }
  }

  /** The first piece ends at the first occurrence; the rest is split again after it. */
  lemma {:induction false} SplitAt(s: string, sep: string, k: nat)
    requires |sep| > 0
    requires OccursAt(s, k, sep)
    requires forall j :: 0 <= j < k ==> !OccursAt(s, j, sep)
    ensures Split(s, sep) == [s[..k]] + Split(s[k + |sep|..], sep)
    decreases k
  {
    if k > 0 {
      assert !OccursAt(s, 0, sep);
      assert s[1..][k - 1..k - 1 + |sep|] == s[k..k + |sep|];
      forall j | 0 <= j < k - 1
        ensures !OccursAt(s[1..], j, sep)
      {
        if OccursAt(s[1..], j, sep) {
          assert s[1..][j..j + |sep|] == s[j + 1..j + 1 + |sep|];
          assert OccursAt(s, j + 1, sep);
        }
      }
      SplitAt(s[1..], sep, k - 1);
      assert [s[0]] + s[1..][..k - 1] == s[..k];
      assert s[1..][k - 1 + |sep|..] == s[k + |sep|..];
    }
  }

  /** A second occurrence anywhere gives a second piece. */
  lemma {:induction false} SplitMore(s: string, sep: string, j: nat)
    requires |sep| > 0
    requires OccursAt(s, j, sep)
    ensures |Split(s, sep)| >= 2
    decreases j
  {
    if !StartsWith(s, sep) {
      assert j > 0;
      assert s[1..][j - 1..j - 1 + |sep|] == s[j..j + |sep|];
      SplitMore(s[1..], sep, j - 1);
    }
  }

  /** POSIX `os.path.split`: the directory part (trailing slashes removed) and the last component. */
  function SplitPath(path: string): (r: (string, string))
    ensures '/' !in r.1
    ensures EndsWith(path, r.1)
  {
    var i := LastIndexOf(path, '/');
    var head := path[..i + 1];
    var tail := path[i + 1..];
    var stripped := RStrip(head, '/');
    (if stripped == [] then head else stripped, tail)
  }

  /**
    The parts of `os.path.split`: the tail is the whole text after the last
    `/`, and the head is the text before it with its trailing `/` removed,
    all of them kept only when the head is nothing but `/`.
   */
  lemma SplitPathParts(path: string)
    ensures var (head, tail) := SplitPath(path);
            && (|tail| == |path| || path[|path| - |tail| - 1] == '/')
            && StartsWith(path, head) && |head| <= |path| - |tail|
            && (forall j :: |head| <= j < |path| - |tail| ==> path[j] == '/')
            && (head != [] && head[|head| - 1] == '/' ==>
                  |head| == |path| - |tail| && forall j :: 0 <= j < |head| ==> head[j] == '/')
  {
    var i := LastIndexOf(path, '/');
    var dir := path[..i + 1];
    var stripped := RStrip(dir, '/');
    assert path[i + 1..] == SplitPath(path).1;
    if stripped == [] {
      assert forall j :: 0 <= j < |dir| ==> dir[j] == '/';
    }
  }

  /** POSIX `os.path.join(a, b)` for two components. */
  function JoinPath(a: string, b: string): (r: string)
    ensures EndsWith(r, b)
  {
    if |b| > 0 && b[0] == '/' then b
    else if a == [] || a[|a| - 1] == '/' then a + b
    else a + "/" + b
  }

  /**
    POSIX `os.path.splitext`: the extension is the part from the last `.` of the
    last path component, unless that component is only dots up to there.
   */
  function SplitExt(path: string): (r: (string, string))
    ensures r.0 + r.1 == path
    ensures r.1 == [] || r.1[0] == '.'
  {
    var sep := LastIndexOf(path, '.');
    var slash := LastIndexOf(path, '/');
    if sep > slash && exists j :: slash < j < sep && path[j] != '.' then
      (path[..sep], path[sep..])
    else
      (path, [])
  }

  /**
    The extension of `os.path.splitext` has no further `.` and no `/`, and
    leading dots of the last component do not start one: some other
    character of that component comes before it.
   */
  lemma SplitExtParts(path: string)
    ensures var (stem, ext) := SplitExt(path);
            && '/' !in ext
            && (forall j :: 0 < j < |ext| ==> ext[j] != '.')
            && (ext != [] ==> exists j :: 0 <= j < |stem| && stem[j] != '.' && '/' !in stem[j..])
  {
    var sep := LastIndexOf(path, '.');
    var slash := LastIndexOf(path, '/');
    if sep > slash && exists j :: slash < j < sep && path[j] != '.' {
      var j :| slash < j < sep && path[j] != '.';
      var stem := path[..sep];
      assert stem[j] == path[j];
      assert forall k :: j <= k < |stem| ==> stem[k] == path[k];
      assert '/' !in stem[j..] by {
        forall k | 0 <= k < |stem[j..]|
          ensures stem[j..][k] != '/'
        {
          assert stem[j..][k] == path[j + k];
        }
      }
      forall k | 0 <= k < |path[sep..]|
        ensures path[sep..][k] != '/' && (k > 0 ==> path[sep..][k] != '.')
      {
        assert path[sep..][k] == path[sep + k];
      }
    }
  }
}
