/**
  The path and file-name helpers of the add-on:
  - version tags in output paths (`version_number`, `remove_version`);
  - the trailing number of a file name (`number_suffix`) and the next
    snapshot counter;
  - the names the image-sequence renderer writes (`file_extension`,
    `safe_filename`, `format_frame`).

  Regular expressions are modelled by the scan they perform; `\d` and `\w`
  are ASCII, and case folding is ASCII lower-casing.
 */
module Paths {
  import opened Wrappers
  import opened Text
  import FrameSpec
  import Ranges

  // ---------------------------------------------------------------------
  // Version tags: `v` followed by digits
  // ---------------------------------------------------------------------

  /** The delimiter and the minimum width every caller of `version_number` uses (its defaults). */
  const Delimiter: char := '_'
  const MinLead: nat := 2

  /** The endings before which a new tag is inserted rather than appended. */
  const VersionedExtensions: seq<string> :=
    [".png", ".jpg", ".jpeg", "jpg", ".exr", ".dpx", ".tga", ".tif", ".tiff", ".cin"]

  /** `s.endswith(tuple)`. */
  predicate EndsWithAny(s: string, suffixes: seq<string>) {
    exists k :: 0 <= k < |suffixes| && EndsWith(s, suffixes[k])
  }

  /** A match of `v(\d+)` starts at `i`. */
  predicate TagAt(s: string, i: nat) {
    i + 1 < |s| && s[i] == 'v' && IsDigit(s[i + 1])
  }

  function FirstTagFrom(s: string, k: nat): (r: int)
    requires k <= |s|
    ensures r == -1 || k <= r < |s|
    ensures r >= 0 ==> TagAt(s, r)
    ensures forall j :: k <= j < |s| && (r < 0 || j < r) ==> !TagAt(s, j)
    decreases |s| - k
  {
    if k == |s| then -1 else if TagAt(s, k) then k else FirstTagFrom(s, k + 1)
  }

  /** Where `re.search(r'v(\d+)', s)` matches: the first tag, or -1 when there is none. */
  function FirstTag(s: string): (r: int)
    ensures -1 <= r < |s|
    ensures r >= 0 ==> TagAt(s, r)
    ensures forall j :: 0 <= j < |s| && (r < 0 || j < r) ==> !TagAt(s, j)
  {
    FirstTagFrom(s, 0)
  }

  /** The whole match, `group(0)`: the `v` and the greedy run of digits after it. */
  function Tag(s: string, i: nat): (t: string)
    requires TagAt(s, i)
    ensures |t| >= 2 && t[0] == 'v' && AllDigits(t[1..])
    ensures OccursAt(s, i, t)
    ensures i + |t| == |s| || !IsDigit(s[i + |t|])
  {
    var n := FrameSpec.DigitRunAt(s, i + 1);
    assert s[i .. i + 1 + n][1..] == s[i + 1 .. i + 1 + n];
    s[i .. i + 1 + n]
  }

  /** The version number a path carries: the digits of its first tag. */
  function VersionOf(s: string): Option<nat> {
    var i := FirstTag(s);
    if i < 0 then None else Some(DigitsValue(Tag(s, i)[1..]))
  }

  /** The tag `v` + `number` zero-padded to `width` digits. */
  function NewTag(number: int, width: nat): string {
    "v" + ZFill(IntToString(number), width)
  }

  /**
    `version_number(path, number)`: when the path has a tag, every copy of
    that tag is replaced by a tag for `number` padded to the old tag's
    width; otherwise a new tag is inserted.
   */
  function VersionNumber(path: string, number: int): string {
    var i := FirstTag(path);
    if i >= 0 then Retag(path, Tag(path, i), number)
    else InsertVersion(path, NewTag(number, MinLead))
  }

  /** The tagged case of `version_number`: every copy of `tag` replaced by a tag for `number` as wide as `tag`. */
  function Retag(path: string, tag: string, number: int): string
    requires |tag| >= 2
  {
    Replace(path, tag, NewTag(number, |tag| - 1))
  }

  /**
    The untagged case of `version_number`: `_<tag>_` goes in front of the
    first `#`, or `_<tag>` in front of a known image extension, or `_<tag>_`
    at the end; the delimiters before it are stripped first.
   */
  function InsertVersion(path: string, tag: string): string {
    if '#' in path then
      var dash := FindChar(path, '#');
      RStrip(path[..dash], Delimiter) + [Delimiter] + tag + ([Delimiter] + path[dash..])
    else if EndsWithAny(path, VersionedExtensions) then
      var (head, extension) := SplitExt(path);
      RStrip(head, Delimiter) + [Delimiter] + tag + extension
    else
      RStrip(path, Delimiter) + [Delimiter] + tag + [Delimiter]
  }

  /** The pieces of `a + b + c` can be read back by position. */
  lemma Pieces(a: string, b: string, c: string)
    ensures a + (b + c) == a + b + c
    ensures (a + b + c)[..|a|] == a
    ensures OccursAt(a + b + c, |a|, b)
    ensures (a + b + c)[|a| + |b|..] == c
    ensures c != [] ==> (a + b + c)[|a| + |b|] == c[0]
  {
    var s := a + b + c;
    assert s[..|a|] == a;
    assert s[|a|..|a| + |b|] == b;
    assert s[|a| + |b|..] == c;
  }

  /** An occurrence of a tag's text is itself a place where the pattern matches. */
  lemma OccurrenceIsTag(s: string, t: string, j: nat)
    requires |t| >= 2 && t[0] == 'v' && IsDigit(t[1])
    requires OccursAt(s, j, t)
    ensures TagAt(s, j)
  {
    assert s[j] == s[j..j + |t|][0] && s[j + 1] == s[j..j + |t|][1];
  }

  /** An occurrence in a suffix is an occurrence in the whole text, shifted. */
  lemma OccursShifted(s: string, off: nat, j: nat, t: string)
    requires off <= |s|
    ensures OccursAt(s[off..], j, t) <==> OccursAt(s, off + j, t)
  {
    if off + j + |t| <= |s| {
      assert s[off..][j..j + |t|] == s[off + j..off + j + |t|];
    }
  }

  /** Nothing before the first occurrence is replaced. */
  lemma {:induction false} ReplaceFrom(s: string, pat: string, rep: string, i: nat)
    requires |pat| > 0 && i <= |s|
    requires forall j :: 0 <= j < i ==> !OccursAt(s, j, pat)
    ensures Replace(s, pat, rep) == s[..i] + Replace(s[i..], pat, rep)
    decreases i
  {
    if i > 0 {
      assert !OccursAt(s, 0, pat);
      forall j | 0 <= j < i - 1
        ensures !OccursAt(s[1..], j, pat)
      {
        OccursShifted(s, 1, j, pat);
      }
      ReplaceFrom(s[1..], pat, rep, i - 1);
      assert s[..i] == [s[0]] + s[1..][..i - 1];
      assert s[i..] == s[1..][i - 1..];
    }
  }

  /** At an occurrence, `replace` writes the replacement and goes on after the occurrence. */
  lemma ReplaceHere(s: string, pat: string, rep: string)
    requires |pat| > 0 && StartsWith(s, pat)
    ensures Replace(s, pat, rep) == rep + Replace(s[|pat|..], pat, rep)
  {
  }

  /** The first character `replace` produces. */
  lemma ReplaceHead(s: string, pat: string, rep: string)
    requires |pat| > 0 && |rep| > 0
    ensures s == [] <==> Replace(s, pat, rep) == []
    ensures s != [] ==> Replace(s, pat, rep)[0] == if StartsWith(s, pat) then rep[0] else s[0]
  {
  }

  /** The first place where the pattern matches. */
  lemma FirstTagIs(s: string, i: nat)
    requires TagAt(s, i)
    requires forall j :: 0 <= j < i ==> !TagAt(s, j)
    ensures FirstTag(s) == i
  {
  }

  /** The match at `i` is `v` followed by exactly the digits `d`. */
  lemma TagIs(s: string, i: nat, d: string)
    requires |d| > 0 && AllDigits(d)
    requires i < |s| && s[i] == 'v' && OccursAt(s, i + 1, d)
    requires i + 1 + |d| == |s| || !IsDigit(s[i + 1 + |d|])
    ensures TagAt(s, i) && Tag(s, i) == "v" + d
  {
    assert s[i + 1] == d[0] by {
      assert s[i + 1..i + 1 + |d|][0] == s[i + 1];
    }
    forall k | i + 1 <= k < i + 1 + |d|
      ensures IsDigit(s[k])
    {
      assert s[k] == s[i + 1..i + 1 + |d|][k - i - 1];
    }
    Ranges.DigitRunExact(s, i + 1, |d|);
    assert s[i..i + 1 + |d|] == [s[i]] + s[i + 1..i + 1 + |d|];
  }

  /** No tag in the text before `i` means no tag starts before `i` in the whole text, unless it starts with `v` at `i - 1` and a digit at `i`. */
  lemma NoTagBefore(s: string, i: nat)
    requires i < |s| && !IsDigit(s[i])
    requires forall j :: 0 <= j < i ==> !TagAt(s[..i], j)
    ensures forall j :: 0 <= j < i ==> !TagAt(s, j)
  {
    forall j | 0 <= j < i
      ensures !TagAt(s, j)
    {
      if j + 1 < i {
        assert !TagAt(s[..i], j);
        assert s[..i][j] == s[j] && s[..i][j + 1] == s[j + 1];
      }
    }
  }

  /**
    A path that holds the tag text `t` at `i`, with no tag in the text before
    it and no digit right after it, has its first tag at `i`, and its version
    is the number `t` spells.
   */
  lemma TagReadBack(s: string, i: nat, t: string)
    requires |t| >= 2 && t[0] == 'v' && AllDigits(t[1..])
    requires OccursAt(s, i, t)
    requires i + |t| == |s| || !IsDigit(s[i + |t|])
    requires forall j :: 0 <= j < i ==> !TagAt(s[..i], j)
    ensures FirstTag(s) == i && Tag(s, i) == t
    ensures VersionOf(s) == Some(DigitsValue(t[1..]))
  {
    assert s[i..i + |t|] == t;
    assert s[i] == t[0];
    assert OccursAt(s, i + 1, t[1..]) by {
      assert s[i + 1..i + 1 + |t[1..]|] == t[1..];
    }
    TagIs(s, i, t[1..]);
    NoTagBefore(s, i);
    FirstTagIs(s, i);
    assert t == "v" + t[1..];
  }

  /** The text before the first tag has no tag, and the tag's text does not occur in it. */
  lemma BeforeFirstTag(path: string)
    requires FirstTag(path) >= 0
    ensures forall j :: 0 <= j < FirstTag(path) ==> !TagAt(path[..FirstTag(path)], j)
    ensures forall j :: 0 <= j < FirstTag(path) ==> !OccursAt(path, j, Tag(path, FirstTag(path)))
  {
    var i := FirstTag(path);
    var tag := Tag(path, i);
    forall j | 0 <= j < i
      ensures !OccursAt(path, j, tag)
    {
      if OccursAt(path, j, tag) {
        OccurrenceIsTag(path, tag, j);
      }
    }
    forall j | 0 <= j < i
      ensures !TagAt(path[..i], j)
    {
      if j + 1 < i {
        assert !TagAt(path, j);
        assert path[..i][j] == path[j] && path[..i][j + 1] == path[j + 1];
      }
    }
  }

  /** A prefix of a path without a tag, followed by the delimiter, has no tag either. */
  lemma UntaggedHead(path: string, h: string)
    requires FirstTag(path) < 0
    requires StartsWith(path, h)
    ensures forall j :: 0 <= j < |h| + 1 ==> !TagAt(h + [Delimiter], j)
  {
    var s := h + [Delimiter];
    forall j | 0 <= j < |s|
      ensures !TagAt(s, j)
    {
      if j + 1 < |h| {
        assert s[j] == path[j] && s[j + 1] == path[j + 1];
        assert !TagAt(path, j);
      }
    }
  }

  /** A new tag for a non-negative number spells that number. */
  lemma NewTagValue(number: nat, width: nat)
    ensures |NewTag(number, width)| >= 2 && NewTag(number, width)[0] == 'v'
    ensures AllDigits(NewTag(number, width)[1..])
    ensures DigitsValue(NewTag(number, width)[1..]) == number
  {
    PadIntValue(number, width);
    assert NewTag(number, width)[1..] == PadInt(number, width);
  }

  /**
    Replacing every copy of the first tag keeps the text before it and puts
    the replacement in its place, followed by the replaced rest.
   */
  lemma ReplaceFirstTag(path: string, i: nat, tag: string, rep: string, after: string)
    requires FirstTag(path) == i && tag == Tag(path, i) && after == path[i + |tag|..]
    ensures Replace(path, tag, rep) == path[..i] + rep + Replace(after, tag, rep)
  {
    BeforeFirstTag(path);
    ReplaceFrom(path, tag, rep, i);
    assert path[i..][|tag|..] == after;
    assert StartsWith(path[i..], tag);
    ReplaceHere(path[i..], tag, rep);
    Pieces(path[..i], rep, Replace(after, tag, rep));
  }

  /** The tagged case of `version_number` reads back as the requested number. */
  lemma RetagReadsBack(path: string, number: nat)
    requires FirstTag(path) >= 0
    ensures VersionOf(VersionNumber(path, number)) == Some(number)
  {
    var tag := Tag(path, FirstTag(path));
    var rep := NewTag(number, |tag| - 1);
    RetagIs(path, number, tag, rep);
    RetagValue(number, |tag| - 1, rep);
    ReplacedReadsBack(path, tag, rep, Replace(path, tag, rep));
  }

  /**
    The tagged case of `version_number` keeps the text before the first tag
    and puts the new tag, as wide as the old one, where that tag began.
   */
  lemma RetagKeepsHead(path: string, number: int)
    requires FirstTag(path) >= 0
    ensures StartsWith(VersionNumber(path, number), path[..FirstTag(path)])
    ensures OccursAt(VersionNumber(path, number), FirstTag(path),
                     NewTag(number, |Tag(path, FirstTag(path))| - 1))
    ensures |IntToString(number)| < |Tag(path, FirstTag(path))|
            ==> |NewTag(number, |Tag(path, FirstTag(path))| - 1)| == |Tag(path, FirstTag(path))|
  {
    var i := FirstTag(path);
    var tag := Tag(path, i);
    var rep := NewTag(number, |tag| - 1);
    RetagIs(path, number, tag, rep);
    var after := path[i + |tag|..];
    ReplaceFirstTag(path, i, tag, rep, after);
    Pieces(path[..i], rep, Replace(after, tag, rep));
  }

  lemma RetagIs(path: string, number: int, tag: string, rep: string)
    requires FirstTag(path) >= 0 && tag == Tag(path, FirstTag(path)) && rep == NewTag(number, |tag| - 1)
    ensures VersionNumber(path, number) == Replace(path, tag, rep)
  {
    assert VersionNumber(path, number) == Retag(path, tag, number);
  }

  lemma RetagValue(number: nat, width: nat, rep: string)
    requires rep == NewTag(number, width)
    ensures |rep| >= 2 && rep[0] == 'v' && AllDigits(rep[1..]) && DigitsValue(rep[1..]) == number
  {
    NewTagValue(number, width);
  }

  /** Replacing the first tag's text by another tag makes that tag the first. */
  lemma ReplacedReadsBack(path: string, tag: string, rep: string, r: string)
    requires FirstTag(path) >= 0 && tag == Tag(path, FirstTag(path))
    requires |rep| >= 2 && rep[0] == 'v' && AllDigits(rep[1..])
    requires r == Replace(path, tag, rep)
    ensures VersionOf(r) == Some(DigitsValue(rep[1..]))
  {
    var i := FirstTag(path);
    var after := path[i + |tag|..];
    var rest := Replace(after, tag, rep);
    BeforeFirstTag(path);
    ReplaceFirstTag(path, i, tag, rep, after);
    RestAfterTag(path, i, tag, rep, after, rest);
    SplicedReadsBack(path[..i], rep, rest, r);
  }

  /** What follows the replaced first tag does not start with a digit. */
  lemma RestAfterTag(path: string, i: nat, tag: string, rep: string, after: string, rest: string)
    requires FirstTag(path) == i && tag == Tag(path, i)
    requires |rep| >= 2 && rep[0] == 'v'
    requires after == path[i + |tag|..] && rest == Replace(after, tag, rep)
    ensures rest == [] || !IsDigit(rest[0])
  {
    ReplaceHead(after, tag, rep);
    if after != [] {
      assert after[0] == path[i + |tag|];
    }
  }

  /** A tag placed after a text without tags, and followed by no digit, is the first tag and gives the version. */
  lemma SplicedReadsBack(head: string, rep: string, rest: string, r: string)
    requires |rep| >= 2 && rep[0] == 'v' && AllDigits(rep[1..])
    requires forall j :: 0 <= j < |head| ==> !TagAt(head, j)
    requires rest == [] || !IsDigit(rest[0])
    requires r == head + rep + rest
    ensures VersionOf(r) == Some(DigitsValue(rep[1..]))
  {
    Pieces(head, rep, rest);
    TagReadBack(r, |head|, rep);
  }

  /**
    The untagged case of `version_number`: the new tag sits between the
    stripped head with one delimiter and the rest, it is the first tag of
    the result, and it reads back as the requested number.
   */
  lemma InsertedTag(path: string, number: nat) returns (h: string, rest: string)
    requires FirstTag(path) < 0
    ensures VersionNumber(path, number) == h + NewTag(number, MinLead) + rest
    ensures FirstTag(VersionNumber(path, number)) == |h|
    ensures Tag(VersionNumber(path, number), |h|) == NewTag(number, MinLead)
    ensures VersionOf(VersionNumber(path, number)) == Some(number)
    ensures '#' in path ==> h == RStrip(path[..FindChar(path, '#')], Delimiter) + [Delimiter]
                            && rest == [Delimiter] + path[FindChar(path, '#')..]
    ensures '#' !in path && !EndsWithAny(path, VersionedExtensions)
            ==> h == RStrip(path, Delimiter) + [Delimiter] && rest == [Delimiter]
  {
    var tag := NewTag(number, MinLead);
    NewTagValue(number, MinLead);
    assert VersionNumber(path, number) == InsertVersion(path, tag);
    var head;
    head, rest := InsertShape(path, tag);
    h := head + [Delimiter];
    UntaggedHead(path, head);
    Pieces(h, tag, rest);
    TagReadBack(VersionNumber(path, number), |h|, tag);
  }

  /** Where `InsertVersion` puts the tag: after a prefix of the path (stripped) and one delimiter. */
  lemma InsertShape(path: string, tag: string) returns (head: string, rest: string)
    ensures InsertVersion(path, tag) == head + [Delimiter] + tag + rest
    ensures StartsWith(path, head)
    ensures rest == [] || !IsDigit(rest[0])
    ensures '#' in path ==> head == RStrip(path[..FindChar(path, '#')], Delimiter)
                            && rest == [Delimiter] + path[FindChar(path, '#')..]
    ensures '#' !in path && !EndsWithAny(path, VersionedExtensions)
            ==> head == RStrip(path, Delimiter) && rest == [Delimiter]
  {
    if '#' in path {
      var dash := FindChar(path, '#');
      head := RStrip(path[..dash], Delimiter);
      rest := [Delimiter] + path[dash..];
      assert StartsWith(path, head);
    } else if EndsWithAny(path, VersionedExtensions) {
      var (stem, extension) := SplitExt(path);
      head := RStrip(stem, Delimiter);
      rest := extension;
      assert StartsWith(path, stem);
      assert StartsWith(path, head);
    } else {
      head := RStrip(path, Delimiter);
      rest := [Delimiter];
    }
  }

  /** The versioned path carries the requested number: what the add-on reads back is what it wrote. */
  lemma VersionNumberReadsBack(path: string, number: int)
    requires number >= 0
    ensures VersionOf(VersionNumber(path, number)) == Some(number)
  {
    if FirstTag(path) >= 0 {
      RetagReadsBack(path, number);
    } else {
      var _, _ := InsertedTag(path, number);
    }
  }

  /** `remove_version` treats `-`, `_` and `.` as delimiters. */
  predicate IsDelimiter(c: char) {
    c == '-' || c == '_' || c == '.'
  }

  /** Join the text around a removed tag: one delimiter after the tag and one at the very end are dropped. */
  function JoinAroundTag(head: string, tail: string): string {
    var t := if tail != [] && IsDelimiter(tail[0]) then tail[1..] else tail;
    var f := head + t;
    if f != [] && IsDelimiter(f[|f| - 1]) then f[..|f| - 1] else f
  }

  /**
    `remove_version(path)` as written: the path is split at the text of its
    first tag; unpacking the pieces into a head and a tail raises
    `ValueError` (`None` here) unless there are exactly two.
   */
  function RemoveVersion(path: string): Option<string> {
    var i := FirstTag(path);
    if i < 0 then Some(path) else Unpack(Split(path, Tag(path, i)))
  }

  /** `head, tail = parts`: `ValueError` (`None`) unless there are exactly two pieces. */
  function Unpack(parts: seq<string>): Option<string> {
    if |parts| != 2 then None else Some(JoinAroundTag(parts[0], parts[1]))
  }

  /** The text of the first tag appears again later in the path. */
  predicate TagRepeats(path: string)
    requires FirstTag(path) >= 0
  {
    var i := FirstTag(path);
    exists j :: i + |Tag(path, i)| <= j <= |path| && OccursAt(path, j, Tag(path, i))
  }

  /** The split of a tagged path: the text before the first tag, then the rest split again. */
  lemma SplitAtTag(path: string, i: nat, tag: string)
    requires FirstTag(path) == i && Tag(path, i) == tag
    ensures Split(path, tag) == [path[..i]] + Split(path[i + |tag|..], tag)
  {
    BeforeFirstTag(path);
    SplitAt(path, tag, i);
  }

  /** `remove_version` fails exactly on a path whose first tag is repeated later on. */
  lemma RemoveVersionFails(path: string)
    ensures RemoveVersion(path).None? <==> FirstTag(path) >= 0 && TagRepeats(path)
  {
    var i := FirstTag(path);
    if i >= 0 {
      var tag := Tag(path, i);
      var after := path[i + |tag|..];
      RemoveVersionTagged(path);
      SplitAtTag(path, i, tag);
      RepeatsSplit(path, i, tag, after);
      UnpackCount(RemoveVersion(path), Split(path, tag), path[..i], Split(after, tag), TagRepeats(path));
    }
  }

  lemma RemoveVersionTagged(path: string)
    requires FirstTag(path) >= 0
    ensures RemoveVersion(path) == Unpack(Split(path, Tag(path, FirstTag(path))))
  {
  }

  lemma UnpackCount(r: Option<string>, parts: seq<string>, head: string, rest: seq<string>, repeats: bool)
    requires r == Unpack(parts)
    requires parts == [head] + rest
    requires |rest| == 1 <==> !repeats
    ensures r.None? <==> repeats
  {
  }

  /** The rest after the first tag splits into more than one piece exactly when the tag repeats. */
  lemma RepeatsSplit(path: string, i: nat, tag: string, after: string)
    requires FirstTag(path) == i && Tag(path, i) == tag && after == path[i + |tag|..]
    ensures |Split(after, tag)| == 1 <==> !TagRepeats(path)
  {
    if TagRepeats(path) {
      var j :| i + |tag| <= j <= |path| && OccursAt(path, j, tag);
      OccursShifted(path, i + |tag|, j - i - |tag|, tag);
      SplitMore(after, tag, j - i - |tag|);
    } else {
      NoRepeat(path, i, tag, after);
      SplitNone(after, tag);
    }
  }

  lemma NoRepeat(path: string, i: nat, tag: string, after: string)
    requires i + |tag| <= |path| && after == path[i + |tag|..]
    requires forall j :: i + |tag| <= j <= |path| ==> !OccursAt(path, j, tag)
    ensures forall k :: 0 <= k <= |after| ==> !OccursAt(after, k, tag)
  {
    forall k | 0 <= k <= |after|
      ensures !OccursAt(after, k, tag)
    {
      OccursShifted(path, i + |tag|, k, tag);
    }
  }

  /** A shot whose folder and file name carry the same tag: `remove_version` raises on it. */
  lemma RemoveVersionRepeatedTag()
    ensures RemoveVersion("comp_v01/comp_v01_") == None
    ensures RemoveFirstVersion("comp_v01/comp_v01_") == "comp_/comp_v01"
  {
    var path := "comp_v01/comp_v01_";
    assert path[..5] == "comp_";
    assert OccursAt(path, 5, "v01") by {
      assert path[5..8] == "v01";
    }
    assert AllDigits("v01"[1..]);
    TagReadBack(path, 5, "v01");
    assert OccursAt(path, 14, "v01") by {
      assert path[14..17] == "v01";
    }
    assert TagRepeats(path);
    RemoveVersionFails(path);
    assert path[8..] == "/comp_v01_";
    assert RemoveFirstVersion(path) == JoinAroundTag(path[..5], path[8..]);
    JoinAroundExample();
  }

  lemma JoinAroundExample()
    ensures JoinAroundTag("comp_", "/comp_v01_") == "comp_/comp_v01"
  {
    var f := "comp_" + "/comp_v01_";
    assert f[|f| - 1] == '_';
    assert f[..|f| - 1] == "comp_/comp_v01";
  }

  /**
    `remove_version` repaired the minimal way (`split(tag, 1)`): the path is
    cut at its first tag only, so a repeated tag no longer raises.
   */
  function RemoveFirstVersion(path: string): string {
    var i := FirstTag(path);
    if i < 0 then path else JoinAt(path, i, Tag(path, i))
  }

  /** The text before and the text after the tag `tag` at `i`, joined. */
  function JoinAt(path: string, i: nat, tag: string): string
    requires i + |tag| <= |path|
  {
    JoinAroundTag(path[..i], path[i + |tag|..])
  }

  /** The repair always yields a path, and the same one wherever the original succeeds. */
  lemma RemoveFirstVersionAgrees(path: string)
    ensures RemoveVersion(path).Some? ==> RemoveVersion(path).value == RemoveFirstVersion(path)
    ensures RemoveVersion(path).None? ==> VersionOf(path).Some?
  {
    var i := FirstTag(path);
    if i >= 0 {
      var tag := Tag(path, i);
      var after := path[i + |tag|..];
      RemoveVersionTagged(path);
      SplitAtTag(path, i, tag);
      UnpackJoins(RemoveVersion(path), Split(path, tag), path[..i], Split(after, tag), after);
      RemoveFirstVersionAt(path, i, tag, after);
    }
  }

  lemma RemoveFirstVersionAt(path: string, i: nat, tag: string, after: string)
    requires FirstTag(path) == i && Tag(path, i) == tag && after == path[i + |tag|..]
    ensures RemoveFirstVersion(path) == JoinAroundTag(path[..i], after)
  {
  }

  /** Where unpacking succeeds, the rest was one piece, the whole text after the head. */
  lemma UnpackJoins(r: Option<string>, parts: seq<string>, head: string, rest: seq<string>, after: string)
    requires r == Unpack(parts)
    requires parts == [head] + rest
    requires |rest| == 1 ==> rest == [after]
    ensures r.Some? ==> r.value == JoinAroundTag(head, after)
  {
  }

  /** With no second copy of its first tag, `remove_version` joins the text around that tag. */
  lemma RemoveVersionAt(r: string, i: nat, t: string, after: string)
    requires FirstTag(r) == i && Tag(r, i) == t && after == r[i + |t|..]
    requires forall j :: 0 <= j <= |after| ==> !OccursAt(after, j, t)
    ensures RemoveVersion(r) == Some(JoinAroundTag(r[..i], after))
  {
    SplitAtTag(r, i, t);
    SplitNone(after, t);
  }

  /** A delimiter followed by a suffix of an untagged path holds no tag. */
  lemma UntaggedTail(path: string, k: nat)
    requires FirstTag(path) < 0 && k <= |path|
    ensures forall j :: 0 <= j < |path| - k + 1 ==> !TagAt([Delimiter] + path[k..], j)
  {
    var s := [Delimiter] + path[k..];
    forall j | 0 <= j < |s|
      ensures !TagAt(s, j)
    {
      if j > 0 && j + 1 < |s| {
        assert s[j] == path[k + j - 1] && s[j + 1] == path[k + j];
        assert !TagAt(path, k + j - 1);
      }
    }
  }

  /** The tag inserted into an untagged path is the only copy of its text after the head. */
  lemma InsertedSplit(path: string, number: nat) returns (h: string, rest: string)
    requires FirstTag(path) < 0
    ensures '#' in path ==> h == RStrip(path[..FindChar(path, '#')], Delimiter) + [Delimiter]
                            && rest == [Delimiter] + path[FindChar(path, '#')..]
    ensures '#' !in path && !EndsWithAny(path, VersionedExtensions)
            ==> h == RStrip(path, Delimiter) + [Delimiter] && rest == [Delimiter]
    ensures ('#' in path || !EndsWithAny(path, VersionedExtensions))
            ==> RemoveVersion(VersionNumber(path, number)) == Some(JoinAroundTag(h, rest))
  {
    h, rest := InsertedTag(path, number);
    var tag := NewTag(number, MinLead);
    NewTagValue(number, MinLead);
    var r := VersionNumber(path, number);
    Pieces(h, tag, rest);
    if '#' in path {
      UntaggedTail(path, FindChar(path, '#'));
    }
    if '#' in path || !EndsWithAny(path, VersionedExtensions) {
      forall j | 0 <= j <= |rest|
        ensures !OccursAt(rest, j, tag)
      {
        if OccursAt(rest, j, tag) {
          OccurrenceIsTag(rest, tag, j);
        }
      }
      RemoveVersionAt(r, |h|, tag, rest);
    }
  }

  /**
    A path without a tag, `#` or image extension gets `_vNN_` appended, and
    `remove_version` takes it off again, leaving the path without its
    trailing underscores.
   */
  lemma RemoveAppendedVersion(path: string, number: nat)
    requires FirstTag(path) < 0 && '#' !in path && !EndsWithAny(path, VersionedExtensions)
    ensures RemoveVersion(VersionNumber(path, number)) == Some(RStrip(path, Delimiter))
    ensures RemoveFirstVersion(VersionNumber(path, number)) == RStrip(path, Delimiter)
  {
    var r := VersionNumber(path, number);
    var h, rest := InsertedSplit(path, number);
    var stripped := RStrip(path, Delimiter);
    assert h == stripped + [Delimiter] && rest == [Delimiter];
    JoinAppended(stripped);
    assert RemoveVersion(r) == Some(stripped);
    RemoveFirstVersionAgrees(r);
  }

  lemma JoinAppended(head: string)
    ensures JoinAroundTag(head + [Delimiter], [Delimiter]) == head
  {
    var f := head + [Delimiter] + [];
    assert f[..|f| - 1] == head;
  }

  /**
    A path with `#` (and no tag) gets `_vNN_` in front of the hashes, and
    `remove_version` takes it off again: the delimiters before the hashes
    come back as a single underscore.
   */
  lemma RemoveInsertedVersion(path: string, number: nat)
    requires FirstTag(path) < 0 && '#' in path && !IsDelimiter(path[|path| - 1])
    ensures RemoveVersion(VersionNumber(path, number))
            == Some(RStrip(path[..FindChar(path, '#')], Delimiter) + [Delimiter] + path[FindChar(path, '#')..])
    ensures RemoveFirstVersion(VersionNumber(path, number))
            == RStrip(path[..FindChar(path, '#')], Delimiter) + [Delimiter] + path[FindChar(path, '#')..]
  {
    var r := VersionNumber(path, number);
    var h, rest := InsertedSplit(path, number);
    var dash := FindChar(path, '#');
    var tail := path[dash..];
    assert h == RStrip(path[..dash], Delimiter) + [Delimiter] && rest == [Delimiter] + tail;
    assert tail[|tail| - 1] == path[|path| - 1];
    JoinInserted(h, tail);
    assert RemoveVersion(r) == Some(h + tail);
    RemoveFirstVersionAgrees(r);
  }

  lemma JoinInserted(head: string, tail: string)
    requires tail != [] && !IsDelimiter(tail[|tail| - 1])
    ensures JoinAroundTag(head, [Delimiter] + tail) == head + tail
  {
    assert ([Delimiter] + tail)[1..] == tail;
    var f := head + tail;
    assert f[|f| - 1] == tail[|tail| - 1];
  }

  // ---------------------------------------------------------------------
  // Trailing numbers
  // ---------------------------------------------------------------------

  /**
    `re.findall(r'\d+\b', s)` from position `k`: a greedy run of digits is
    found where it ends at a word boundary; otherwise the scan moves one
    character on.
   */
  function DigitWordsFrom(s: string, k: nat): (r: seq<string>)
    requires k <= |s|
    ensures forall m :: m in r ==> |m| > 0 && AllDigits(m)
    decreases |s| - k
  {
    if k == |s| then []
    else if IsDigit(s[k]) then
      var e := k + FrameSpec.DigitRunAt(s, k);
      if e == |s| || !IsWordChar(s[e]) then [s[k..e]] + DigitWordsFrom(s, e)
      else DigitWordsFrom(s, k + 1)
    else DigitWordsFrom(s, k + 1)
  }

  /** `number_suffix(name)`: the last number of the name that ends at a word boundary. */
  function NumberSuffix(name: string): (r: Option<string>)
    ensures r.Some? ==> |r.value| > 0 && AllDigits(r.value)
  {
    var found := DigitWordsFrom(name, 0);
    if found == [] then None else Some(found[|found| - 1])
  }

  /** Whatever the scan finds before the digits that end the name, those digits are found last. */
  lemma {:induction false} TrailingDigitsLast(s: string, k: nat, i: nat)
    requires i <= k < |s|
    requires forall j :: k <= j < |s| ==> IsDigit(s[j])
    requires k == 0 || !IsDigit(s[k - 1])
    ensures DigitWordsFrom(s, i) != []
    ensures DigitWordsFrom(s, i)[|DigitWordsFrom(s, i)| - 1] == s[k..]
    decreases k - i
  {
    if i == k {
      Ranges.DigitRunExact(s, k, |s| - k);
      DigitWordAt(s, k, |s|);
      assert DigitWordsFrom(s, |s|) == [];
    } else if IsDigit(s[i]) {
      var e := i + FrameSpec.DigitRunAt(s, i);
      assert e < k;
      if e == |s| || !IsWordChar(s[e]) {
        DigitWordAt(s, i, e);
        TrailingDigitsLast(s, k, e);
        LastAfterHead(DigitWordsFrom(s, i), s[i..e], DigitWordsFrom(s, e));
      } else {
        DigitWordsSkip(s, i);
        TrailingDigitsLast(s, k, i + 1);
      }
    } else {
      DigitWordsSkip(s, i);
      TrailingDigitsLast(s, k, i + 1);
    }
  }

  /** A run of digits ending at a word boundary is found, and the scan goes on after it. */
  lemma DigitWordAt(s: string, i: nat, e: nat)
    requires i < |s| && IsDigit(s[i]) && e == i + FrameSpec.DigitRunAt(s, i)
    requires e == |s| || !IsWordChar(s[e])
    ensures DigitWordsFrom(s, i) == [s[i..e]] + DigitWordsFrom(s, e)
  {
  }

  /** Where no run of digits ending at a word boundary starts, the scan moves one character on. */
  lemma DigitWordsSkip(s: string, i: nat)
    requires i < |s|
    requires IsDigit(s[i]) ==> var e := i + FrameSpec.DigitRunAt(s, i); e < |s| && IsWordChar(s[e])
    ensures DigitWordsFrom(s, i) == DigitWordsFrom(s, i + 1)
  {
  }

  lemma LastAfterHead(r: seq<string>, x: string, rest: seq<string>)
    requires r == [x] + rest && rest != []
    ensures r != [] && r[|r| - 1] == rest[|rest| - 1]
  {
  }

  /** A name that does not end in a digit, followed by a numeral, has that numeral as its suffix. */
  lemma NumberSuffixOfNumeral(name: string, digits: string)
    requires name == [] || !IsDigit(name[|name| - 1])
    requires |digits| > 0 && AllDigits(digits)
    ensures NumberSuffix(name + digits) == Some(digits)
  {
    var s := name + digits;
    NumeralTail(name, digits, s);
    TrailingDigitsLast(s, |name|, 0);
  }

  /** The numeral's place in the name followed by it. */
  lemma NumeralTail(name: string, digits: string, s: string)
    requires name == [] || !IsDigit(name[|name| - 1])
    requires |digits| > 0 && AllDigits(digits)
    requires s == name + digits
    ensures |name| < |s| && s[|name|..] == digits
    ensures forall j :: |name| <= j < |s| ==> IsDigit(s[j])
    ensures |name| == 0 || !IsDigit(s[|name| - 1])
  {
    forall j | |name| <= j < |s|
      ensures IsDigit(s[j])
    {
      assert s[j] == digits[j - |name|];
    }
    if |name| > 0 {
      assert s[|name| - 1] == name[|name| - 1];
    }
    assert s[|name|..] == digits;
  }

  // ---------------------------------------------------------------------
  // Snapshot counter
  // ---------------------------------------------------------------------

  function MaxOf(xs: seq<nat>): (m: nat)
    requires |xs| > 0
    ensures m in xs
    ensures forall k :: 0 <= k < |xs| ==> xs[k] <= m
  {
    if |xs| == 1 then xs[0]
    else
      var m := MaxOf(xs[1..]);
      assert forall k :: 1 <= k < |xs| ==> xs[k] == xs[1..][k - 1];
      if xs[0] >= m then xs[0] else m
  }

  /**
    The two-digit counter of the next snapshot when numbered snapshots
    already exist: one more than the largest number found.
   */
  function NextSnapshotSuffix(numbers: seq<nat>): (r: string)
    requires |numbers| > 0
    ensures AllDigits(r) && |r| >= 2
    ensures forall k :: 0 <= k < |numbers| ==> DigitsValue(r) > numbers[k]
    ensures exists k :: 0 <= k < |numbers| && DigitsValue(r) == numbers[k] + 1
  {
    var m := MaxOf(numbers);
    PadIntValue(m + 1, 2);
    PadInt(m + 1, 2)
  }

  // ---------------------------------------------------------------------
  // Names written by the image-sequence renderer
  // ---------------------------------------------------------------------

  /**
    `file_extension(format)`: the renderer's table from Blender's image
    format to a file extension; an unknown format raises `KeyError` (`None`
    here).
   */
  function FileExtension(format: string): Option<string> {
    match format
    case "BMP" => Some("bmp")
    case "IRIS" => Some("iris")
    case "PNG" => Some("png")
    case "JPEG" => Some("jpg")
    case "JPEG2000" => Some("jp2")
    case "TARGA" => Some("tga")
    case "TARGA_RAW" => Some("tga")
    case "CINEON" => Some("cin")
    case "DPX" => Some("dpx")
    case "OPEN_EXR_MULTILAYER" => Some("exr")
    case "OPEN_EXR" => Some("exr")
    case "HDR" => Some("hdr")
    case "TIFF" => Some("tif")
    case "WEBP" => Some("webp")
    case "SUPPLEMENT1" => Some("tiff")
    case "SUPPLEMENT2" => Some("jpeg")
    case _ => None
  }

  /** The formats of the table, in the order the table lists them. */
  const FormatNames: seq<string> :=
    ["BMP", "IRIS", "PNG", "JPEG", "JPEG2000", "TARGA", "TARGA_RAW", "CINEON",
     "DPX", "OPEN_EXR_MULTILAYER", "OPEN_EXR", "HDR", "TIFF", "WEBP", "SUPPLEMENT1", "SUPPLEMENT2"]

  /** A format has an extension exactly when the table lists it. */
  lemma FileExtensionDomain(format: string)
    ensures FileExtension(format).Some? <==> format in FormatNames
  {
  }

  /** Every extension of the table is a plain name: not empty, without `.` or `/`. */
  lemma PlainExtension(format: string)
    requires FileExtension(format).Some?
    ensures FileExtension(format).value != []
    ensures '.' !in FileExtension(format).value && '/' !in FileExtension(format).value
  {
  }

  /** The lower-cased name ends with the extension of some format of the table. */
  predicate HasImageExtension(name: string) {
    exists k :: 0 <= k < |FormatNames| && FileExtension(FormatNames[k]).Some?
                && EndsWith(LowerString(name), FileExtension(FormatNames[k]).value)
  }

  /** The name part of the renderer's output path and the number of digits to pad frames to. */
  datatype SafeName = SafeName(name: string, digits: nat)

  /** The number of `#` at the end of `s` (`re.findall("#+$", s)`). */
  function TrailingHashes(s: string): (n: nat)
    ensures n <= |s|
    ensures forall j :: |s| - n <= j < |s| ==> s[j] == '#'
    ensures n < |s| ==> s[|s| - n - 1] != '#'
  {
    |s| - |RStrip(s, '#')|
  }

  /**
    `safe_filename(name)`: drop a known image extension, remove every `#`
    (a trailing run of them sets the padding width, 4 when the hashes are
    not at the end) and add `_` after a final digit; without a name the
    blend file's name and `_` are used.
   */
  function SafeFilename(fileName: string, digits: nat, blendPath: string): (r: SafeName)
    ensures r.name == [] || !IsDigit(r.name[|r.name| - 1])
    ensures fileName != [] ==> '#' !in r.name
    ensures fileName == [] ==> r.digits == digits && r.name != []
  {
    if fileName != [] then
      var nameReal := if HasImageExtension(fileName) then SplitExt(fileName).0 else fileName;
      var name := if '#' in nameReal then RemoveChar(nameReal, '#') else nameReal;
      SafeName(GuardDigit(name), HashWidth(nameReal, digits))
    else
      SafeName(SplitExt(SplitPath(blendPath).1).0 + "_", digits)
  }

  /** The padding width: the length of a trailing run of `#`, 4 for hashes elsewhere, else unchanged. */
  function HashWidth(name: string, digits: nat): (w: nat)
    ensures '#' !in name ==> w == digits
    ensures '#' in name ==> w > 0
    ensures '#' in name && name[|name| - 1] == '#' ==> w == TrailingHashes(name)
    ensures '#' in name && name[|name| - 1] != '#' ==> w == 4
  {
    if '#' !in name then digits
    else if TrailingHashes(name) > 0 then TrailingHashes(name) else 4
  }

  /** An `_` after a name ending in a digit, so that the frame number stays apart from it. */
  function GuardDigit(name: string): (r: string)
    ensures r == [] || !IsDigit(r[|r| - 1])
    ensures StartsWith(r, name) && |r| <= |name| + 1
    ensures forall x :: x in r ==> x in name || x == '_'
    ensures (name == [] || !IsDigit(name[|name| - 1])) ==> r == name
    ensures r != name ==> r == name + "_"
  {
    if name != [] && IsDigit(name[|name| - 1]) then name + "_" else name
  }

  /** Every extension of the table is written in lower case. */
  lemma LowerCaseExtension(format: string)
    requires FileExtension(format).Some?
    ensures LowerString(FileExtension(format).value) == FileExtension(format).value
  {
    var ext := FileExtension(format).value;
    assert ext in ["bmp", "iris", "png", "jpg", "jp2", "tga", "cin", "dpx", "exr", "hdr", "tif", "webp", "tiff", "jpeg"];
    forall i | 0 <= i < |ext|
      ensures Lower(ext[i]) == ext[i]
    {
    }
  }

  /**
    A file name made of a stem, a dot and the extension of a known format
    loses the extension; the stem keeps the padding setting and gains `_`
    only after a final digit.
   */
  lemma SafeFilenameDropsExtension(stem: string, format: string, digits: nat, blendPath: string)
    requires FileExtension(format).Some?
    requires stem != [] && '#' !in stem && '/' !in stem && stem[|stem| - 1] != '.'
    ensures SafeFilename(stem + "." + FileExtension(format).value, digits, blendPath)
            == SafeName(GuardDigit(stem), digits)
  {
    var ext := FileExtension(format).value;
    var name := stem + "." + ext;
    PlainExtension(format);
    LowerCaseExtension(format);
    FileExtensionDomain(format);
    var k :| 0 <= k < |FormatNames| && FormatNames[k] == format;
    assert EndsWith(LowerString(name), ext) by {
      forall j | 0 <= j < |ext|
        ensures LowerString(name)[|name| - |ext| + j] == ext[j]
      {
        assert name[|name| - |ext| + j] == ext[j];
        assert LowerString(ext)[j] == Lower(ext[j]);
      }
      assert LowerString(name)[|name| - |ext|..] == ext;
    }
    assert HasImageExtension(name);
    SplitDotted(stem, ext);
  }

  /** A run of `k` hashes at the end of a plain name sets the padding width to `k`. */
  lemma SafeFilenameHashes(stem: string, k: nat, digits: nat, blendPath: string)
    requires k > 0 && '#' !in stem
    requires !HasImageExtension(stem + seq(k, _ => '#'))
    ensures SafeFilename(stem + seq(k, _ => '#'), digits, blendPath).digits == k
    ensures SafeFilename(stem + seq(k, _ => '#'), digits, blendPath).name
            == if stem != [] && IsDigit(stem[|stem| - 1]) then stem + "_" else stem
  {
    var s := stem + seq(k, _ => '#');
    assert s[|s| - 1] == '#';
    assert '#' in s;
    StripHashes(stem, k);
    RemoveHashes(stem, k);
  }

  lemma {:induction false} StripHashes(stem: string, k: nat)
    requires '#' !in stem
    ensures RStrip(stem + seq(k, _ => '#'), '#') == stem
  {
    var s := stem + seq(k, _ => '#');
    if k == 0 {
      assert s == stem;
      assert stem != [] ==> stem[|stem| - 1] in stem;
    } else {
      assert s[|s| - 1] == '#';
      assert s[..|s| - 1] == stem + seq(k - 1, _ => '#');
      StripHashes(stem, k - 1);
    }
  }

  lemma {:induction false} RemoveHashes(stem: string, k: nat)
    requires '#' !in stem
    ensures RemoveChar(stem + seq(k, _ => '#'), '#') == stem
    decreases |stem| + k
  {
    var s := stem + seq(k, _ => '#');
    if stem != [] {
      assert s[1..] == stem[1..] + seq(k, _ => '#');
      RemoveHashes(stem[1..], k);
    } else if k > 0 {
      assert s[1..] == [] + seq(k - 1, _ => '#');
      RemoveHashes([], k - 1);
    }
  }

  /** A name without `#` keeps the padding width it was given. */
  lemma SafeFilenameNoHashes(fileName: string, digits: nat, blendPath: string)
    requires '#' !in fileName
    ensures SafeFilename(fileName, digits, blendPath).digits == digits
  {
    if fileName != [] && HasImageExtension(fileName) {
      var (head, extension) := SplitExt(fileName);
      assert head + extension == fileName;
      assert forall x :: x in head ==> x in fileName by {
        forall x | x in head ensures x in fileName {
          var j :| 0 <= j < |head| && head[j] == x;
          assert fileName[j] == x;
        }
      }
    }
  }

  /**
    `format_frame(name, frame, extension)`: the name with its globals
    resolved, the frame padded to `digits`, then `.` and the extension, or
    `_` when there is no extension.
   */
  function FormatFrame(resolve: string -> string, fileName: string, frame: int, digits: nat,
                       extension: string): string
  {
    resolve(fileName) + PadInt(frame, digits) + (if extension != [] then "." + extension else "_")
  }

  /**
    A written file name splits into the padded frame and the extension, and
    the frame reads back from it as the add-on's own `number_suffix` reads
    frame numbers, as long as the resolved name does not end in a digit
    (which `safe_filename` guarantees for a name without globals).
   */
  lemma FormatFrameReadsBack(resolve: string -> string, fileName: string, frame: nat, digits: nat,
                             extension: string)
    requires resolve(fileName) == [] || !IsDigit(resolve(fileName)[|resolve(fileName)| - 1])
    requires extension != [] && '.' !in extension && '/' !in extension
    ensures SplitExt(FormatFrame(resolve, fileName, frame, digits, extension))
            == (resolve(fileName) + PadInt(frame, digits), "." + extension)
    ensures NumberSuffix(resolve(fileName) + PadInt(frame, digits)) == Some(PadInt(frame, digits))
    ensures DigitsValue(PadInt(frame, digits)) == frame
  {
    var name := resolve(fileName);
    var pad := PadInt(frame, digits);
    PadIntValue(frame, digits);
    assert FormatFrame(resolve, fileName, frame, digits, extension) == name + pad + ("." + extension);
    FramePartsSplit(name, pad, extension);
  }

  /** The name-and-frame stem and the extension split apart, and the frame is the stem's last number. */
  lemma FramePartsSplit(name: string, pad: string, extension: string)
    requires name == [] || !IsDigit(name[|name| - 1])
    requires pad != [] && AllDigits(pad)
    requires extension != [] && '.' !in extension && '/' !in extension
    ensures SplitExt(name + pad + ("." + extension)) == (name + pad, "." + extension)
    ensures NumberSuffix(name + pad) == Some(pad)
  {
    var stem := name + pad;
    assert stem + ("." + extension) == stem + "." + extension;
    assert stem[|stem| - 1] == pad[|pad| - 1];
    SplitDotted(stem, extension);
    NumberSuffixOfNumeral(name, pad);
  }

  /** A stem that does not end in `.` or `/`, a dot and a plain extension split back apart. */
  lemma SplitDotted(stem: string, extension: string)
    requires stem != [] && stem[|stem| - 1] != '.' && stem[|stem| - 1] != '/'
    requires extension != [] && '.' !in extension && '/' !in extension
    ensures SplitExt(stem + "." + extension) == (stem, "." + extension)
  {
    var path := stem + "." + extension;
    forall j | |stem| < j < |path|
      ensures path[j] != '.' && path[j] != '/'
    {
      assert path[j] == extension[j - |stem| - 1];
    }
    assert path[|stem|] == '.' && path[|stem| - 1] == stem[|stem| - 1];
    assert path[..|stem|] == stem && path[|stem|..] == "." + extension;
  }
}
