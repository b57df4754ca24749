/** The plain text of the checkbox choices built from the project types
    (index.js, `isWhitespace` and the `TYPES` map), with the colouring left
    out. */
module Labels {
  import opened Wrappers

  /** One entry of a multi-colour spec: `[hex, start, end]`, `end` inclusive. */
  datatype ColorRange = ColorRange(hex: string, start: int, end: int)

  /** A single colour for the whole name, or a list of coloured ranges. */
  datatype ColorSpec = Solid(hex: string) | Ranges(ranges: seq<ColorRange>)

  /** An entry of the type catalogue; `None` is a description left undefined. */
  datatype ProjectType = ProjectType(name: string, description: Option<string>, color: ColorSpec)

  /** A checkbox choice: the text shown in the list, the text shown once
      chosen, and the value returned, which names the folder. */
  datatype Choice = Choice(name: string, short: string, value: string)

  /** The characters of the `\s` class of JavaScript regular expressions. */
  predicate IsSpace(c: char)
  {
    c == '\t' || c == '\n' || c == '\U{000B}' || c == '\U{000C}' || c == '\r' || c == ' '
    || c == '\U{00A0}' || c == '\U{1680}' || '\U{2000}' <= c <= '\U{200A}'
    || c == '\U{2028}' || c == '\U{2029}' || c == '\U{202F}' || c == '\U{205F}'
    || c == '\U{3000}' || c == '\U{FEFF}'
  }

  /** How far `\s*` matches from position `from`. */
  function SpaceRun(s: string, from: nat): (r: nat)
    requires from <= |s|
    ensures from <= r <= |s|
    ensures forall k :: from <= k < r ==> IsSpace(s[k])
    ensures r < |s| ==> !IsSpace(s[r])
    decreases |s| - from
  {
    if from == |s| || !IsSpace(s[from]) then from else SpaceRun(s, from + 1)
  }

  /** `isWhitespace(str)`: `!str || /^\s*$/.test(str)`. True for a missing or
      empty string and for one made only of whitespace. */
  function IsWhitespace(str: Option<string>): (r: bool)
    ensures r <==> str.None? || forall k :: 0 <= k < |str.value| ==> IsSpace(str.value[k])
  {
    str.None? || str.value == "" || SpaceRun(str.value, 0) == |str.value|
  }

  /** The index `String.prototype.slice` uses for an argument `i` on a string of
      length `len`: negative values count from the end, and both ends clamp. */
  function SliceIndex(i: int, len: nat): (r: nat)
    ensures r <= len
    ensures 0 <= i <= len ==> r == i
    ensures i < 0 && -i <= len ==> r == len + i
    ensures i < 0 && -i > len ==> r == 0
    ensures i > len ==> r == len
  {
    if i < 0 then (if len + i < 0 then 0 else len + i)
    else if i > len then len
    else i
  }

  /** `s.slice(start, end)`. */
  function Slice(s: string, start: int, end: int): (r: string)
    ensures |r| <= |s|
    ensures 0 <= start <= end <= |s| ==> r == s[start..end]
    ensures 0 <= end <= start ==> r == ""
    ensures SliceIndex(end, |s|) <= SliceIndex(start, |s|) ==> r == ""
  {
    var from, to := SliceIndex(start, |s|), SliceIndex(end, |s|);
    if from < to then s[from..to] else ""
  }

  /** The text the `+=` loop over the colour ranges builds, each range cut out
      with `name.slice(start, end + 1)`. */
  function RangesText(name: string, ranges: seq<ColorRange>): (r: string)
    decreases |ranges|
  {
    if ranges == [] then ""
    else
      var last := ranges[|ranges| - 1];
      RangesText(name, ranges[..|ranges| - 1]) + Slice(name, last.start, last.end + 1)
  }

  lemma ConcatAssociates(x: string, y: string, z: string)
    ensures x + y + z == x + (y + z)
  {
  }

  /** One more range appends its slice of the name. */
  lemma RangesTextSnoc(name: string, ranges: seq<ColorRange>, x: ColorRange)
    ensures RangesText(name, ranges + [x]) == RangesText(name, ranges) + Slice(name, x.start, x.end + 1)
  {
    assert (ranges + [x])[..|ranges|] == ranges;
  }

  /** The text for two range lists one after the other is the text of the
      first followed by the text of the second. */
  lemma {:induction false} RangesTextAppend(name: string, a: seq<ColorRange>, b: seq<ColorRange>)
    ensures RangesText(name, a + b) == RangesText(name, a) + RangesText(name, b)
    decreases |b|
  {
    if b == [] {
      assert a + b == a;
    } else {
      var n := |b| - 1;
      var init, x := b[..n], b[n];
      assert b == init + [x];
      assert a + b == (a + init) + [x];
      RangesTextAppend(name, a, init);
      RangesTextSnoc(name, a + init, x);
      RangesTextSnoc(name, init, x);
      ConcatAssociates(RangesText(name, a), RangesText(name, init), Slice(name, x.start, x.end + 1));
    }
  }

  /** A single range gives exactly its slice of the name. */
  lemma RangesTextSingle(name: string, x: ColorRange)
    ensures RangesText(name, [x]) == Slice(name, x.start, x.end + 1)
  {
    assert [x][..0] == [];
    var piece := Slice(name, x.start, x.end + 1);
    assert "" + piece == piece;
  }

  /** Read from the front: the text starts with the slice of the first range,
      followed by the text of the remaining ranges. */
  lemma RangesTextFirst(name: string, ranges: seq<ColorRange>)
    requires ranges != []
    ensures RangesText(name, ranges)
      == Slice(name, ranges[0].start, ranges[0].end + 1) + RangesText(name, ranges[1..])
  {
    var first, rest := ranges[0], ranges[1..];
    assert [first] + rest == ranges;
    RangesTextAppend(name, [first], rest);
    RangesTextSingle(name, first);
  }

  /** The text of the coloured name, without its colour codes. */
  function ColoredText(name: string, color: ColorSpec): (r: string)
    ensures color.Solid? ==> r == name
    ensures color.Ranges? && color.ranges == [] ==> r == ""
  {
    match color
    case Solid(_) => name
    case Ranges(ranges) => RangesText(name, ranges)
  }

  /** The range lies inside a name of length `len`, inclusive `end`. */
  predicate Fits(range: ColorRange, len: nat)
  {
    0 <= range.start <= range.end + 1 <= len
  }

  /** Every range lies inside a name of length `len`. */
  predicate AllFit(ranges: seq<ColorRange>, len: nat)
  {
    forall i :: 0 <= i < |ranges| ==> Fits(ranges[i], len)
  }

  /** Each range starts right after the previous one ends. */
  predicate Contiguous(ranges: seq<ColorRange>)
  {
    forall i :: 0 < i < |ranges| ==> StartsAfter(ranges, i)
  }

  predicate StartsAfter(ranges: seq<ColorRange>, i: int)
    requires 0 < i < |ranges|
  {
    ranges[i].start == ranges[i - 1].end + 1
  }

  lemma PrefixFitsAndFollows(ranges: seq<ColorRange>, len: nat, n: nat)
    requires n <= |ranges| && AllFit(ranges, len) && Contiguous(ranges)
    ensures AllFit(ranges[..n], len) && Contiguous(ranges[..n])
  {
    forall i | 0 <= i < n ensures Fits(ranges[..n][i], len) { assert Fits(ranges[i], len); }
    forall i | 0 < i < n ensures StartsAfter(ranges[..n], i) { assert StartsAfter(ranges, i); }
  }

  /** The last range adds its inclusive slice of the name. */
  lemma RangesTextLast(name: string, ranges: seq<ColorRange>)
    requires ranges != [] && Fits(ranges[|ranges| - 1], |name|)
    ensures var last := ranges[|ranges| - 1];
      RangesText(name, ranges) == RangesText(name, ranges[..|ranges| - 1]) + name[last.start..last.end + 1]
  {
  }

  lemma AdjacentSlices(s: string, a: nat, b: nat, c: nat)
    requires a <= b <= c <= |s|
    ensures s[a..b] + s[b..c] == s[a..c]
  {
  }

  /** Appending a range that starts right after the covered part extends the
      covered part up to the new range's inclusive end. */
  lemma ExtendCovered(name: string, ranges: seq<ColorRange>, a: nat)
    requires |ranges| >= 2 && Fits(ranges[|ranges| - 1], |name|)
    requires StartsAfter(ranges, |ranges| - 1)
    requires a <= ranges[|ranges| - 2].end + 1
    requires RangesText(name, ranges[..|ranges| - 1]) == name[a..ranges[|ranges| - 2].end + 1]
    ensures a <= ranges[|ranges| - 1].end + 1
    ensures RangesText(name, ranges) == name[a..ranges[|ranges| - 1].end + 1]
  {
    var n := |ranges| - 1;
    var b, c := ranges[n].start, ranges[n].end + 1;
    RangesTextLast(name, ranges);
    AdjacentSlices(name, a, b, c);
  }

  /** Ranges with inclusive ends that follow each other without gap or overlap
      reproduce the part of the name they cover. */
  lemma {:induction false} ContiguousRanges(name: string, ranges: seq<ColorRange>)
    requires ranges != [] && AllFit(ranges, |name|) && Contiguous(ranges)
    ensures ranges[0].start <= ranges[|ranges| - 1].end + 1
    ensures RangesText(name, ranges) == name[ranges[0].start..ranges[|ranges| - 1].end + 1]
    decreases |ranges|
  {
    var n := |ranges| - 1;
    assert Fits(ranges[n], |name|);
    if n == 0 {
      RangesTextLast(name, ranges);
      assert ranges[..n] == [];
    } else {
      var init := ranges[..n];
      PrefixFitsAndFollows(ranges, |name|, n);
      ContiguousRanges(name, init);
      assert init[0] == ranges[0] && init[n - 1] == ranges[n - 1];
      assert StartsAfter(ranges, n);
      ExtendCovered(name, ranges, ranges[0].start);
    }
  }

  /** Ranges that tile the name from its first character to its last give the
      name back. */
  lemma TilingRanges(name: string, ranges: seq<ColorRange>)
    requires ranges != [] && AllFit(ranges, |name|) && Contiguous(ranges)
    requires ranges[0].start == 0 && ranges[|ranges| - 1].end == |name| - 1
    ensures ColoredText(name, Ranges(ranges)) == name
  {
    ContiguousRanges(name, ranges);
    assert name[0..|name|] == name;
  }

  /** The choice built for one project type: the list text is the coloured
      name, followed on a new line by the description when that is not blank;
      the short text is the coloured name; the value is the raw name whatever
      the colours. */
  function MakeChoice(t: ProjectType): (c: Choice)
    ensures c.value == t.name
    ensures c.short == ColoredText(t.name, t.color)
    ensures c.name == c.short <==> IsWhitespace(t.description)
    ensures !IsWhitespace(t.description) ==> c.name == c.short + "\n" + t.description.value
  {
    var text := ColoredText(t.name, t.color);
    Choice(if !IsWhitespace(t.description) then text + "\n" + t.description.value else text, text, t.name)
  }

  /** `TYPES`: one choice per catalogue entry, in catalogue order; each folder
      name is the raw name of its entry. */
  function Catalog(types: seq<ProjectType>): (r: seq<Choice>)
    ensures |r| == |types|
    ensures forall i :: 0 <= i < |types| ==> r[i].value == types[i].name && r[i].short == ColoredText(types[i].name, types[i].color)
  {
    seq(|types|, i requires 0 <= i < |types| => MakeChoice(types[i]))
  }
}
