/** One line of a hex dump, written in place into a buffer of limited size. */
module HexDump {
  import opened Basics

  const HEX_ASC := "0123456789abcdef"

  // ---- What a line says ----

  /** The two digits of a byte, high digit first. */
  function HexByte(b: Byte): (text: string)
    ensures |text| == 2
    ensures text[0] as int == if b / 16 < 10 then 48 + b / 16 else 87 + b / 16
    ensures text[1] as int == if b % 16 < 10 then 48 + b % 16 else 87 + b % 16
  {
    HexDigit(b / 16);
    HexDigit(b % 16);
    [HEX_ASC[b / 16], HEX_ASC[b % 16]]
  }

  /** The digits are '0' to '9', characters 48 to 57, and then 'a' to 'f', characters 97 to 102. */
  lemma HexDigit(d: int)
    requires 0 <= d < 16
    ensures HEX_ASC[d] as int == if d < 10 then 48 + d else 87 + d
  {
    assert HEX_ASC[d] == ['0', '1', '2', '3', '4', '5', '6', '7', '8', '9', 'a', 'b', 'c', 'd', 'e', 'f'][d];
  }

  /** A group is shown as the number it is on a little-endian machine, so its last byte comes first. */
  function HexGroup(group: seq<Byte>): (text: string)
    ensures |text| == 2 * |group|
  {
    if group == [] then "" else HexGroup(group[1..]) + HexByte(group[0])
  }

  /** Where the `n`-th of several equally long pieces starts. */
  function Offset(n: nat, g: nat): nat {
    if n == 0 then 0 else Offset(n - 1, g) + g
  }

  lemma {:induction false} OffsetIsProduct(n: nat, g: nat)
    ensures Offset(n, g) == n * g
    decreases n
  {
    if n > 0 {
      OffsetIsProduct(n - 1, g);
    }
  }

  lemma WholeGroups(row: seq<Byte>, g: nat)
    requires g > 0 && |row| % g == 0
    ensures Offset(|row| / g, g) == |row|
  {
    OffsetIsProduct(|row| / g, g);
  }

  /** The first `n` groups of `g` bytes, separated by spaces. */
  function HexText(data: seq<Byte>, g: nat, n: nat): (text: string)
    requires Offset(n, g) <= |data|
  {
    if n == 0 then ""
    else HexText(data, g, n - 1) + (if n > 1 then " " else "") + HexGroup(data[Offset(n - 1, g)..Offset(n, g)])
  }

  lemma {:induction false} ByteOffset(n: nat)
    ensures Offset(n, 1) == n && Offset(n, 3) == 3 * n
  {
    OffsetIsProduct(n, 1);
    OffsetIsProduct(n, 3);
  }

  function Printable(b: Byte): char {
    if 32 <= b < 127 then b as char else '.'
  }

  function Ascii(data: seq<Byte>): (text: string)
    ensures |text| == |data|
  {
    if data == [] then "" else Ascii(data[..|data| - 1]) + [Printable(data[|data| - 1])]
  }

  function RowSize(rowsize: int): int { if rowsize != 16 && rowsize != 32 then 16 else rowsize }

  /** The bytes shown: at most one row. */
  function Row(data: seq<Byte>, rowsize: int): seq<Byte> {
    data[..Min(|data|, RowSize(rowsize))]
  }

  predicate Grouped(g: nat) { g == 2 || g == 4 || g == 8 }

  /** A negative group size is huge as the unsigned number it is compared as, and no row is a multiple of it. */
  function GroupSize(row: seq<Byte>, groupsize: int): (g: nat)
    ensures g > 0 && |row| % g == 0
  {
    if groupsize <= 0 || |row| % groupsize != 0 then 1 else groupsize
  }

  function Cut(text: string, room: nat): string { text[..Min(|text|, room)] }

  /** Groups are cut anywhere, to leave room for the terminating NUL; single bytes are dropped whole. */
  function HexPart(row: seq<Byte>, g: nat, linebuflen: nat): string
    requires g > 0 && linebuflen >= 1 && |row| % g == 0
  {
    if Grouped(g) then
      WholeGroups(row, g);
      Cut(HexText(row, g, |row| / g), linebuflen - 1)
    else
      ByteOffset(Min(|row|, linebuflen / 3));
      HexText(row, 1, Min(|row|, linebuflen / 3))
  }

  function AsciiColumn(row: seq<Byte>, g: nat, rowsize: int): int
    requires g > 0
  {
    (if Grouped(g) then Offset(|row| / g, 2 * g + 1) else 3 * RowSize(rowsize)) + 2
  }

  function Spaces(n: int): (text: string)
    ensures |text| == if n < 0 then 0 else n
  {
    if n <= 0 then "" else Spaces(n - 1) + " "
  }

  /** Padding up to the ASCII column; the ASCII part leaves one more character free than the padding does. */
  function WithAscii(hex: string, row: seq<Byte>, column: int, linebuflen: nat): string
    requires linebuflen >= 1
  {
    var padded := hex + Spaces(Min(linebuflen - 1, column - 1) - |hex|);
    padded + Ascii(row[..Min(|row|, if |padded| + 2 <= linebuflen then linebuflen - 2 - |padded| else 0)])
  }

  function Line(data: seq<Byte>, rowsize: int, groupsize: int, linebuflen: nat, ascii: bool): string
    requires linebuflen >= 1
  {
    if data == [] then ""
    else
      var row := Row(data, rowsize);
      var g := GroupSize(row, groupsize);
      RowLine(row, RowSize(rowsize), g, linebuflen, ascii)
  }

  function RowLine(row: seq<Byte>, rowsize: int, g: nat, linebuflen: nat, ascii: bool): string
    requires g > 0 && |row| % g == 0 && linebuflen >= 1
  {
    var hex := HexPart(row, g, linebuflen);
    if ascii then WithAscii(hex, row, AsciiColumn(row, g, rowsize), linebuflen) else hex
  }

  // ---- Lengths ----

  lemma {:induction false} HexTextLength(data: seq<Byte>, g: nat, n: nat)
    requires Offset(n, g) <= |data|
    ensures |HexText(data, g, n)| == if n == 0 then 0 else Offset(n, 2 * g + 1) - 1
    decreases n
  {
    if n > 0 {
      HexTextLength(data, g, n - 1);
    }
  }

  lemma HexPartLength(row: seq<Byte>, g: nat, linebuflen: nat)
    requires g > 0 && linebuflen >= 1 && |row| % g == 0
    ensures var n := if Grouped(g) then |row| / g else Min(|row|, linebuflen / 3);
            |HexPart(row, g, linebuflen)| == if n == 0 then 0
                                             else if Grouped(g) then Min(Offset(n, 2 * g + 1) - 1, linebuflen - 1)
                                             else 3 * n - 1
  {
    if Grouped(g) {
      WholeGroups(row, g);
      HexTextLength(row, g, |row| / g);
    } else {
      ByteOffset(Min(|row|, linebuflen / 3));
      HexTextLength(row, 1, Min(|row|, linebuflen / 3));
    }
  }

  lemma WithAsciiFits(hex: string, row: seq<Byte>, column: int, linebuflen: nat)
    requires |hex| < linebuflen
    ensures hex <= WithAscii(hex, row, column, linebuflen) && |WithAscii(hex, row, column, linebuflen)| < linebuflen
  {}

  /** The line and its terminating NUL always fit. */
  lemma LineFits(data: seq<Byte>, rowsize: int, groupsize: int, linebuflen: nat, ascii: bool)
    requires linebuflen >= 1
    ensures |Line(data, rowsize, groupsize, linebuflen, ascii)| < linebuflen
  {
    var row := Row(data, rowsize);
    var g := GroupSize(row, groupsize);
    HexPartLength(row, g, linebuflen);
    WithAsciiFits(HexPart(row, g, linebuflen), row, AsciiColumn(row, g, rowsize), linebuflen);
  }

  // ---- Reading a line back ----

  datatype Option<T> = None | Some(value: T)

  function Digit(c: char): (d: Option<int>)
    ensures d.Some? ==> 0 <= d.value < 16
  {
    if '0' <= c <= '9' then Some(c as int - '0' as int)
    else if 'a' <= c <= 'f' then Some(10 + c as int - 'a' as int)
    else None
  }

  function ParseByte(hi: char, lo: char): Option<Byte> {
    if Digit(hi).Some? && Digit(lo).Some? then Some(16 * Digit(hi).value + Digit(lo).value) else None
  }

  lemma DigitRoundTrip(d: int)
    requires 0 <= d < 16
    ensures Digit(HEX_ASC[d]) == Some(d)
  {
    HexDigit(d);
  }

  lemma ByteRoundTrip(b: Byte)
    ensures ParseByte(HexByte(b)[0], HexByte(b)[1]) == Some(b)
  {
    var hi, lo := b / 16, b % 16;
    DigitRoundTrip(hi);
    DigitRoundTrip(lo);
    assert HexByte(b)[0] == HEX_ASC[hi] && HexByte(b)[1] == HEX_ASC[lo];
    assert 16 * hi + lo == b;
  }

  /** What two readings give together. */
  function Both(a: Option<seq<Byte>>, b: Option<seq<Byte>>): Option<seq<Byte>> {
    if a.Some? && b.Some? then Some(a.value + b.value) else None
  }

  /** Reads the digits of a group, which has its last byte first. */
  function ParseGroup(text: string): Option<seq<Byte>> {
    if text == "" then Some([])
    else if |text| == 1 then None
    else
      var first := ParseByte(text[|text| - 2], text[|text| - 1]);
      Both(if first.Some? then Some([first.value]) else None, ParseGroup(text[..|text| - 2]))
  }

  lemma LastByte(front: string, b: Byte, rest: seq<Byte>)
    requires ParseGroup(front) == Some(rest)
    ensures ParseGroup(front + HexByte(b)) == Some([b] + rest)
  {
    var text := front + HexByte(b);
    ByteRoundTrip(b);
    assert text[..|text| - 2] == front;
  }

  lemma {:induction false} GroupRoundTrip(group: seq<Byte>)
    ensures ParseGroup(HexGroup(group)) == Some(group)
    decreases |group|
  {
    if group != [] {
      GroupRoundTrip(group[1..]);
      LastByte(HexGroup(group[1..]), group[0], group[1..]);
      assert group == [group[0]] + group[1..];
    }
  }

  /** Reads `n` groups of `g` bytes with one space between two of them; fails on anything else. */
  function Parse(text: string, g: nat, n: nat): Option<seq<Byte>> {
    if n == 0 then Some([])
    else
      var at := Offset(n - 1, 2 * g + 1);
      if |text| < at + 2 * g || (n > 1 && text[at - 1] != ' ') then None
      else Both(Parse(text, g, n - 1), ParseGroup(text[at..at + 2 * g]))
  }

  lemma SliceOfPrefix(text: string, longer: string, lo: nat, hi: nat)
    requires text <= longer && lo <= hi <= |text|
    ensures longer[lo..hi] == text[lo..hi]
  {}

  lemma {:induction false} ParsePrefix(text: string, longer: string, g: nat, n: nat)
    requires Offset(n, 2 * g + 1) <= |text| + 1 && text <= longer
    ensures Parse(longer, g, n) == Parse(text, g, n)
    decreases n
  {
    if n > 0 {
      ParsePrefix(text, longer, g, n - 1);
      SliceOfPrefix(text, longer, Offset(n - 1, 2 * g + 1), Offset(n - 1, 2 * g + 1) + 2 * g);
    }
  }

  lemma {:induction false} TextRoundTrip(data: seq<Byte>, g: nat, n: nat)
    requires Offset(n, g) <= |data|
    ensures Offset(n, 2 * g + 1) <= |HexText(data, g, n)| + 1
    ensures Parse(HexText(data, g, n), g, n) == Some(data[..Offset(n, g)])
    decreases n
  {
    if n > 0 {
      var front, text, at := HexText(data, g, n - 1), HexText(data, g, n), Offset(n - 1, 2 * g + 1);
      var lo, hi := Offset(n - 1, g), Offset(n, g);
      TextRoundTrip(data, g, n - 1);
      LastGroup(data, g, n);
      assert Parse(front, g, n - 1) == Some(data[..lo]) && at <= |front| + 1;
      NextRoundTrip(data, g, n, lo, hi, at, front, text);
    }
  }

  lemma NextRoundTrip(data: seq<Byte>, g: nat, n: nat, lo: nat, hi: nat, at: nat, front: string, text: string)
    requires n > 0 && lo <= hi <= |data| && at == Offset(n - 1, 2 * g + 1) <= |front| + 1
    requires front <= text && at + 2 * g == |text| && text[at..at + 2 * g] == HexGroup(data[lo..hi])
    requires (n > 1 ==> text[at - 1] == ' ') && Parse(front, g, n - 1) == Some(data[..lo])
    ensures Offset(n, 2 * g + 1) <= |text| + 1 && Parse(text, g, n) == Some(data[..hi])
  {
    GroupRoundTrip(data[lo..hi]);
    LastRoundTrip(front, text, HexGroup(data[lo..hi]), g, n, at);
    Glue(data, lo, hi);
  }

  /** A last group reads back behind the others. */
  lemma LastRoundTrip(front: string, text: string, last: string, g: nat, n: nat, at: nat)
    requires n > 0 && at == Offset(n - 1, 2 * g + 1) <= |front| + 1 && front <= text && at + 2 * g == |text|
    requires text[at..at + 2 * g] == last && (n > 1 ==> text[at - 1] == ' ')
    ensures Offset(n, 2 * g + 1) <= |text| + 1
    ensures Parse(text, g, n) == Both(Parse(front, g, n - 1), ParseGroup(last))
  {
    assert Parse(text, g, n) == Both(Parse(text, g, n - 1), ParseGroup(last));
    ParsePrefix(front, text, g, n - 1);
  }

  lemma Glue(data: seq<Byte>, lo: nat, hi: nat)
    requires lo <= hi <= |data|
    ensures data[..hi] == data[..lo] + data[lo..hi]
  {}

  lemma LastGroup(data: seq<Byte>, g: nat, n: nat)
    requires n > 0 && Offset(n, g) <= |data|
    ensures var text, at := HexText(data, g, n), Offset(n - 1, 2 * g + 1);
            && at + 2 * g == |text| && HexText(data, g, n - 1) <= text
            && text[at..at + 2 * g] == HexGroup(data[Offset(n - 1, g)..Offset(n, g)])
            && (n > 1 ==> text[at - 1] == ' ')
  {
    HexTextLength(data, g, n - 1);
    var before := HexText(data, g, n - 1) + (if n > 1 then " " else "");
    assert HexText(data, g, n) == before + HexGroup(data[Offset(n - 1, g)..Offset(n, g)]);
  }

  lemma HexIsPrefix(data: seq<Byte>, rowsize: int, groupsize: int, linebuflen: nat, ascii: bool)
    requires linebuflen >= 1 && data != []
    ensures var row := Row(data, rowsize);
            HexPart(row, GroupSize(row, groupsize), linebuflen) <= Line(data, rowsize, groupsize, linebuflen, ascii)
  {
    var row := Row(data, rowsize);
    var g := GroupSize(row, groupsize);
    HexPartLength(row, g, linebuflen);
    WithAsciiFits(HexPart(row, g, linebuflen), row, AsciiColumn(row, g, rowsize), linebuflen);
  }

  lemma HexPartReadsBack(row: seq<Byte>, g: nat, linebuflen: nat)
    requires g > 0 && linebuflen >= 1 && |row| % g == 0
    requires Grouped(g) ==> Offset(|row| / g, 2 * g + 1) <= linebuflen
    ensures var hex := HexPart(row, g, linebuflen);
            if Grouped(g) then Offset(|row| / g, 2 * g + 1) <= |hex| + 1 && Parse(hex, g, |row| / g) == Some(row)
            else var n := Min(|row|, linebuflen / 3); Offset(n, 3) <= |hex| + 1 && Parse(hex, 1, n) == Some(row[..n])
  {
    if Grouped(g) {
      WholeGroups(row, g);
      HexTextLength(row, g, |row| / g);
      TextRoundTrip(row, g, |row| / g);
      var text := HexText(row, g, |row| / g);
      assert text[..|text|] == text && row[..|row|] == row;
    } else {
      ByteOffset(Min(|row|, linebuflen / 3));
      TextRoundTrip(row, 1, Min(|row|, linebuflen / 3));
    }
  }

  /** How many bytes are shown, and whether in groups. */
  lemma Shown(data: seq<Byte>, rowsize: int, groupsize: int)
    ensures var count := Min(|data|, if rowsize == 32 then 32 else 16);
            var row := Row(data, rowsize);
            && row == data[..count] && RowSize(rowsize) == (if rowsize == 32 then 32 else 16)
            && (if (groupsize == 2 || groupsize == 4 || groupsize == 8) && count % groupsize == 0
                then GroupSize(row, groupsize) == groupsize && Grouped(groupsize)
                else !Grouped(GroupSize(row, groupsize)))
  {}

  /** A line reads back, with or without its ASCII part. Groups of 2, 4 or 8 bytes that fill the row are
      read back as the whole row unless the line was cut; otherwise single bytes are shown, as many as there
      is room for, three characters each. */
  lemma LineReadsBack(data: seq<Byte>, rowsize: int, groupsize: int, linebuflen: nat, ascii: bool)
    requires linebuflen >= 1 && data != []
    ensures var count := Min(|data|, if rowsize == 32 then 32 else 16);
            var line := Line(data, rowsize, groupsize, linebuflen, ascii);
            if (groupsize == 2 || groupsize == 4 || groupsize == 8) && count % groupsize == 0 then
              count / groupsize * (2 * groupsize + 1) <= linebuflen ==>
                Parse(line, groupsize, count / groupsize) == Some(data[..count])
            else
              var n := Min(count, linebuflen / 3);
              Parse(line, 1, n) == Some(data[..n])
  {
    var row := Row(data, rowsize);
    var g, line := GroupSize(row, groupsize), Line(data, rowsize, groupsize, linebuflen, ascii);
    Shown(data, rowsize, groupsize);
    HexIsPrefix(data, rowsize, groupsize, linebuflen, ascii);
    var n := if Grouped(g) then |row| / g else Min(|row|, linebuflen / 3);
    OffsetIsProduct(n, 2 * g + 1);
    if !Grouped(g) {
      HexPartReadsBack(row, g, linebuflen);
      ParsePrefix(HexPart(row, g, linebuflen), line, 1, n);
      assert row[..n] == data[..n];
    } else if Offset(n, 2 * g + 1) <= linebuflen {
      HexPartReadsBack(row, g, linebuflen);
      ParsePrefix(HexPart(row, g, linebuflen), line, g, n);
    }
  }

  // ---- Where everything is ----

  lemma {:induction false} GroupAt(group: seq<Byte>, i: nat, at: nat)
    requires i < |group| && at == 2 * (|group| - 1 - i)
    ensures HexGroup(group)[at] == HexByte(group[i])[0] && HexGroup(group)[at + 1] == HexByte(group[i])[1]
    decreases |group|
  {
    if i > 0 {
      GroupAt(group[1..], i - 1, at);
    }
  }

  lemma {:induction false} TextPrefix(data: seq<Byte>, g: nat, m: nat, n: nat)
    requires m <= n && Offset(n, g) <= |data|
    ensures Offset(m, g) <= |data| && HexText(data, g, m) <= HexText(data, g, n)
    decreases n
  {
    if m < n {
      TextPrefix(data, g, m, n - 1);
    }
  }

  lemma IndexBehind(before: string, part: string, longer: string, at: nat)
    requires before + part <= longer && at < |part|
    ensures |before| + at < |longer| && longer[|before| + at] == part[at]
  {
    assert (before + part)[|before| + at] == part[at];
  }

  /** The text of a group stands behind those of the groups before it and their spaces. */
  lemma TextBehind(data: seq<Byte>, g: nat, n: nat, lo: nat, hi: nat, off: nat) returns (before: string)
    requires n > 0 && Offset(n, g) <= |data|
    requires lo == Offset(n - 1, g) && hi == Offset(n, g) && off == Offset(n - 1, 2 * g + 1)
    ensures lo <= hi && |before| == off && HexText(data, g, n) == before + HexGroup(data[lo..hi])
  {
    before := HexText(data, g, n - 1) + (if n > 1 then " " else "");
    assert |before| == off by {
      HexTextLength(data, g, n - 1);
    }
  }

  /** Character `at` of group `k`. */
  lemma TextAt(data: seq<Byte>, g: nat, n: nat, k: nat, lo: nat, off: nat, at: nat)
    requires k < n && Offset(n, g) <= |data| && at < 2 * g
    requires lo == Offset(k, g) && off == Offset(k, 2 * g + 1)
    ensures lo + g <= |data| && off + at < |HexText(data, g, n)|
    ensures HexText(data, g, n)[off + at] == HexGroup(data[lo..lo + g])[at]
  {
    TextPrefix(data, g, k + 1, n);
    var before := TextBehind(data, g, k + 1, lo, lo + g, off);
    IndexBehind(before, HexGroup(data[lo..lo + g]), HexText(data, g, n), at);
  }

  lemma TextByte(data: seq<Byte>, g: nat, n: nat, k: nat, i: nat, b: nat, at: nat)
    requires k < n && Offset(n, g) <= |data| && i < g
    requires b == Offset(k, g) + i && at == Offset(k, 2 * g + 1) + 2 * (g - 1 - i)
    ensures b < |data| && at + 1 < |HexText(data, g, n)|
    ensures HexText(data, g, n)[at] == HexByte(data[b])[0] && HexText(data, g, n)[at + 1] == HexByte(data[b])[1]
  {
    var lo, off, x := Offset(k, g), Offset(k, 2 * g + 1), 2 * (g - 1 - i);
    TextAt(data, g, n, k, lo, off, x);
    TextAt(data, g, n, k, lo, off, x + 1);
    GroupAt(data[lo..lo + g], i, x);
  }

  /** Groups are shown as little-endian numbers: byte `i` of group `k` has its two digits in front of those of
      the bytes before it in its group. A cut line has what there is room for at the same places. */
  lemma BytePlace(data: seq<Byte>, rowsize: int, groupsize: nat, linebuflen: nat, ascii: bool, k: nat, i: nat,
                  b: nat, at: nat)
    requires var count := Min(|data|, if rowsize == 32 then 32 else 16);
             && (groupsize == 2 || groupsize == 4 || groupsize == 8) && count % groupsize == 0
             && k < count / groupsize && i < groupsize
    requires b == k * groupsize + i && at == k * (2 * groupsize + 1) + 2 * (groupsize - 1 - i)
    requires at + 2 < linebuflen
    ensures var line := Line(data, rowsize, groupsize, linebuflen, ascii);
            at + 1 < |line| && b < |data| && line[at] == HexByte(data[b])[0] && line[at + 1] == HexByte(data[b])[1]
  {
    var row := Row(data, rowsize);
    Shown(data, rowsize, groupsize);
    WholeGroups(row, groupsize);
    OffsetIsProduct(k, groupsize);
    OffsetIsProduct(k, 2 * groupsize + 1);
    TextByte(row, groupsize, |row| / groupsize, k, i, b, at);
    HexIsPrefix(data, rowsize, groupsize, linebuflen, ascii);
  }

  lemma {:induction false} AsciiAt(data: seq<Byte>, j: nat)
    requires j < |data|
    ensures Ascii(data)[j] == Printable(data[j])
    decreases |data|
  {
    if j < |data| - 1 {
      AsciiAt(data[..|data| - 1], j);
    }
  }

  lemma {:induction false} SpacesAt(n: int, k: int)
    requires 0 <= k < n
    ensures Spaces(n)[k] == ' '
  {
    if k < n - 1 {
      SpacesAt(n - 1, k);
    }
  }

  lemma WithAsciiAt(hex: string, row: seq<Byte>, column: nat, linebuflen: nat, j: nat)
    requires |hex| < column && j < |row| && column - 1 + j < linebuflen - 2
    ensures var line := WithAscii(hex, row, column, linebuflen);
            && column - 1 + j < |line| && line[column - 1 + j] == Printable(row[j])
            && forall k | |hex| <= k < column - 1 :: line[k] == ' '
  {
    AsciiAt(row[..Min(|row|, linebuflen - 2 - (column - 1))], j);
    var line := WithAscii(hex, row, column, linebuflen);
    forall k | |hex| <= k < column - 1 ensures line[k] == ' ' {
      SpacesAt(column - 1 - |hex|, k - |hex|);
    }
  }

  lemma Columns(row: seq<Byte>, g: nat, rowsize: int, linebuflen: nat, digits: nat, start: nat)
    requires g > 0 && |row| % g == 0 && 0 < |row| <= RowSize(rowsize) && start + 2 < linebuflen
    requires if Grouped(g) then digits == |row| / g * (2 * g + 1) - 1 && start == digits + 2
             else digits == 3 * |row| - 1 && start == 3 * RowSize(rowsize) + 1
    ensures |HexPart(row, g, linebuflen)| == digits && AsciiColumn(row, g, rowsize) == start + 1
  {
    HexPartLength(row, g, linebuflen);
    if Grouped(g) {
      OffsetIsProduct(|row| / g, 2 * g + 1);
    } else {
      ByteOffset(Min(|row|, linebuflen / 3));
    }
  }

  lemma AsciiInRow(row: seq<Byte>, g: nat, rowsize: int, linebuflen: nat, digits: nat, start: nat, j: nat)
    requires rowsize == RowSize(rowsize)
    requires g > 0 && |row| % g == 0 && j < |row| <= rowsize && start + j + 2 < linebuflen
    requires if Grouped(g) then digits == |row| / g * (2 * g + 1) - 1 && start == digits + 2
             else digits == 3 * |row| - 1 && start == 3 * rowsize + 1
    ensures var line := RowLine(row, rowsize, g, linebuflen, true);
            && start + j < |line| && line[start + j] == Printable(row[j])
            && forall k | digits <= k < start :: line[k] == ' '
  {
    Columns(row, g, rowsize, linebuflen, digits, start);
    WithAsciiAt(HexPart(row, g, linebuflen), row, start + 1, linebuflen, j);
  }

  /** Byte `j` of the row has its character `j` places behind `start`, if there is room for it and one more,
      and there are only spaces between the digits and `start`. In a line of single bytes `start` depends on
      the row size alone. */
  lemma AsciiPlace(data: seq<Byte>, rowsize: int, groupsize: int, linebuflen: nat, count: nat, digits: nat, start: nat,
                   j: nat)
    requires count == Min(|data|, if rowsize == 32 then 32 else 16)
    requires if (groupsize == 2 || groupsize == 4 || groupsize == 8) && count % groupsize == 0 then
               digits == count / groupsize * (2 * groupsize + 1) - 1 && start == digits + 2
             else digits == 3 * count - 1 && start == 3 * (if rowsize == 32 then 32 else 16) + 1
    requires j < count && start + j + 2 < linebuflen
    ensures var line := Line(data, rowsize, groupsize, linebuflen, true);
            && start + j < |line| && line[start + j] == (if 32 <= data[j] <= 126 then data[j] as char else '.')
            && forall k | digits <= k < start :: line[k] == ' '
  {
    var row := Row(data, rowsize);
    var g := GroupSize(row, groupsize);
    Shown(data, rowsize, groupsize);
    assert row[j] == data[j];
    AsciiInRow(row, g, RowSize(rowsize), linebuflen, digits, start, j);
  }

  /** The padding goes as far as the buffer allows, the characters behind it one place less far. */
  lemma AsciiLength(data: seq<Byte>, rowsize: int, groupsize: int, linebuflen: nat, count: nat, start: nat)
    requires data != [] && linebuflen >= 1 && count == Min(|data|, if rowsize == 32 then 32 else 16)
    requires start == if (groupsize == 2 || groupsize == 4 || groupsize == 8) && count % groupsize == 0 then
                        count / groupsize * (2 * groupsize + 1) + 1
                      else 3 * (if rowsize == 32 then 32 else 16) + 1
    ensures |Line(data, rowsize, groupsize, linebuflen, true)|
         == if start >= linebuflen - 2 then Min(start, linebuflen - 1) else start + Min(count, linebuflen - 2 - start)
  {
    var row := Row(data, rowsize);
    var g := GroupSize(row, groupsize);
    Shown(data, rowsize, groupsize);
    RowLength(row, g, RowSize(rowsize), linebuflen, start);
  }

  lemma RowLength(row: seq<Byte>, g: nat, rowsize: int, linebuflen: nat, start: nat)
    requires g > 0 && |row| % g == 0 && 0 < |row| <= rowsize == RowSize(rowsize) && linebuflen >= 1
    requires start == if Grouped(g) then |row| / g * (2 * g + 1) + 1 else 3 * rowsize + 1
    ensures |RowLine(row, rowsize, g, linebuflen, true)|
         == if start >= linebuflen - 2 then Min(start, linebuflen - 1)
            else start + Min(|row|, linebuflen - 2 - start)
  {
    OffsetIsProduct(|row| / g, 2 * g + 1);
    HexPartLength(row, g, linebuflen);
    PaddedLength(HexPart(row, g, linebuflen), row, start + 1, linebuflen);
  }

  lemma PaddedLength(hex: string, row: seq<Byte>, column: int, linebuflen: nat)
    requires |hex| <= Min(linebuflen - 1, column - 1)
    ensures |WithAscii(hex, row, column, linebuflen)|
         == if column - 1 >= linebuflen - 2 then Min(column - 1, linebuflen - 1)
            else column - 1 + Min(|row|, linebuflen - 2 - (column - 1))
  {}

  // ---- The code ----

  /** The value of a group on a little-endian machine. */
  function Word(group: seq<Byte>): nat {
    if group == [] then 0 else group[0] + 256 * Word(group[1..])
  }

  /** A number printed in hexadecimal with exactly `width` digits. */
  function HexNumber(v: nat, width: nat): string {
    if width == 0 then "" else HexNumber(v / 16, width - 1) + [HEX_ASC[v % 16]]
  }

  lemma {:induction false} NumberShowsGroup(group: seq<Byte>)
    ensures HexNumber(Word(group), 2 * |group|) == HexGroup(group)
    decreases |group|
  {
    if group != [] {
      NumberShowsGroup(group[1..]);
      LastDigits(Word(group), 2 * |group|, group[0], Word(group[1..]), 2 * |group| - 2);
    }
  }

  lemma LastDigits(v: nat, width': nat, b: Byte, rest: nat, width: nat)
    requires v == b + 256 * rest && width' == width + 2
    ensures HexNumber(v, width') == HexNumber(rest, width) + HexByte(b)
  {
    assert v / 16 == b / 16 + 16 * rest && v % 16 == b % 16;
    assert v / 16 / 16 == rest && v / 16 % 16 == b / 16;
    assert HexNumber(v / 16, width + 1) == HexNumber(rest, width) + [HEX_ASC[b / 16]];
  }

  /** The first `n` characters of the buffer are `text`. */
  ghost predicate Starts(buf: array<char>, n: int, text: string)
    reads buf
  {
    n == |text| <= buf.Length && forall k | 0 <= k < |text| :: buf[k] == text[k]
  }

  /** From `at` on the buffer is as it `was`. */
  ghost predicate Untouched(buf: array<char>, at: int, was: seq<char>)
    reads buf
  {
    |was| == buf.Length && forall k | 0 <= k < |was| && at <= k :: buf[k] == was[k]
  }

  /** scnprintf of the text `s` at `buf[at..]`. With no space at all it returns -1, where its documentation
      promises 0. */
  method Scnprintf(buf: array<char>, at: nat, size: nat, s: string) returns (i: int)
    requires at + size <= buf.Length
    modifies buf
    ensures i == if |s| >= size then size - 1 else |s|
    ensures forall k | 0 <= k < at :: buf[k] == old(buf[k])
    ensures forall k | 0 <= k < i :: buf[at + k] == s[k]
    ensures size > 0 ==> buf[at + i] == '\0'
    ensures Untouched(buf, at + i + 1, old(buf[..]))
  {
    i := if |s| >= size then size - 1 else |s|;
    if size > 0 {
      for k := 0 to i
        invariant forall m | 0 <= m < at :: buf[m] == old(buf[m])
        invariant forall m | 0 <= m < k :: buf[at + m] == s[m]
        invariant Untouched(buf, at + k, old(buf[..]))
      {
        buf[at + k] := s[k];
      }
      buf[at + i] := '\0';
    }
  }

  /** The loops of the grouped branches. */
  method WriteGroups(row: seq<Byte>, g: nat, ngroups: nat, linebuf: array<char>, linebuflen: nat) returns (lx: nat)
    requires Offset(ngroups, g) <= |row| && 1 <= linebuflen <= linebuf.Length
    modifies linebuf
    ensures lx < linebuflen && Starts(linebuf, lx, Cut(HexText(row, g, ngroups), linebuflen - 1))
    ensures Untouched(linebuf, lx + 1, old(linebuf[..]))
  {
    lx := 0;
    for j := 0 to ngroups
      invariant Offset(j, g) <= |row| && lx < linebuflen
      invariant Starts(linebuf, lx, Cut(HexText(row, g, j), linebuflen - 1))
      invariant Untouched(linebuf, lx + 1, old(linebuf[..]))
    {
      OffsetMono(j + 1, ngroups, g);
      PieceIsNext(row, g, j);
      lx := PrintPiece(Piece(row, g, j), linebuf, linebuflen, lx, HexText(row, g, j));
    }
  }

  /** What one call of scnprintf prints: a separator and group `j` as a number. */
  function Piece(row: seq<Byte>, g: nat, j: nat): string
    requires Offset(j + 1, g) <= |row|
  {
    (if j > 0 then " " else "") + HexNumber(Word(row[Offset(j, g)..Offset(j + 1, g)]), 2 * g)
  }

  lemma PieceIsNext(row: seq<Byte>, g: nat, j: nat)
    requires Offset(j + 1, g) <= |row|
    ensures HexText(row, g, j + 1) == HexText(row, g, j) + Piece(row, g, j)
  {
    NumberShowsGroup(row[Offset(j, g)..Offset(j + 1, g)]);
  }

  method PrintPiece(piece: string, linebuf: array<char>, linebuflen: nat, lx: nat, ghost text: string)
    returns (lx': nat)
    requires lx < linebuflen <= linebuf.Length && Starts(linebuf, lx, Cut(text, linebuflen - 1))
    modifies linebuf
    ensures lx <= lx' < linebuflen && Starts(linebuf, lx', Cut(text + piece, linebuflen - 1))
    ensures Untouched(linebuf, lx' + 1, old(linebuf[..]))
  {
    CutAppend(text, piece, linebuflen - 1);
    var i := Scnprintf(linebuf, lx, linebuflen - lx, piece);
    lx' := lx + i;
  }

  lemma {:induction false} OffsetMono(m: nat, n: nat, g: nat)
    requires m <= n
    ensures Offset(m, g) <= Offset(n, g)
    decreases n
  {
    if m < n {
      OffsetMono(m, n - 1, g);
    }
  }

  /** Appending to a text cut at `room` and cutting again cuts the whole text. */
  lemma CutAppend(text: string, piece: string, room: nat)
    ensures var lx := Min(|text|, room);
            var i := if |piece| >= room + 1 - lx then room - lx else |piece|;
            |Cut(text, room)| == lx && Cut(text, room) + piece[..i] == Cut(text + piece, room)
  {}

  /** The text of `j` single bytes with the space behind each. */
  ghost function Spaced(row: seq<Byte>, j: nat): string
    requires j <= |row|
  {
    ByteOffset(j);
    HexText(row, 1, j) + (if j > 0 then " " else "")
  }

  lemma OneByte(row: seq<Byte>, j: nat)
    requires j < |row|
    ensures Spaced(row, j + 1) == Spaced(row, j) + HexByte(row[j]) + " "
  {
    ByteOffset(j);
    ByteOffset(j + 1);
    assert row[j..j + 1] == [row[j]];
    assert HexGroup([row[j]]) == HexGroup([]) + HexByte(row[j]);
  }

  lemma AllBytes(row: seq<Byte>, linebuflen: nat, j: nat)
    requires linebuflen >= 1 && j == Min(|row|, linebuflen / 3)
    ensures Spaced(row, j) == HexPart(row, 1, linebuflen) + (if j > 0 then " " else "")
  {}

  /** The loop of the single-byte branch. */
  method WriteBytes(row: seq<Byte>, linebuf: array<char>, linebuflen: nat) returns (lx: nat)
    requires 1 <= linebuflen <= linebuf.Length
    modifies linebuf
    ensures lx < linebuflen && Starts(linebuf, lx, HexPart(row, 1, linebuflen))
    ensures Untouched(linebuf, lx + 1, old(linebuf[..]))
  {
    lx := 0;
    var j := 0;
    while j < |row| && lx + 3 <= linebuflen
      invariant 0 <= j <= |row| && lx == 3 * j <= linebuflen
      invariant Starts(linebuf, lx, Spaced(row, j))
      invariant Untouched(linebuf, lx, old(linebuf[..]))
    {
      OneByte(row, j);
      WriteByte(row[j], linebuf, lx, Spaced(row, j));
      lx := lx + 3;
      j := j + 1;
    }
    AllBytes(row, linebuflen, j);
    if j > 0 {
      lx := lx - 1;
    }
  }

  method WriteByte(ch: Byte, linebuf: array<char>, lx: nat, ghost text: string)
    requires lx + 3 <= linebuf.Length && Starts(linebuf, lx, text)
    modifies linebuf
    ensures Starts(linebuf, lx + 3, text + HexByte(ch) + " ")
    ensures Untouched(linebuf, lx + 3, old(linebuf[..]))
  {
    linebuf[lx] := HEX_ASC[ch / 16];
    linebuf[lx + 1] := HEX_ASC[ch % 16];
    linebuf[lx + 2] := ' ';
  }

  /** The first loop of the ASCII part. */
  method Pad(column: int, linebuf: array<char>, linebuflen: nat, start: nat, ghost hex: string) returns (lx: nat)
    requires 1 <= linebuflen <= linebuf.Length && start < linebuflen && Starts(linebuf, start, hex)
    modifies linebuf
    ensures start <= lx < linebuflen
    ensures Starts(linebuf, lx, hex + Spaces(Min(linebuflen - 1, column - 1) - |hex|))
    ensures Untouched(linebuf, lx + 1, old(linebuf[..]))
  {
    lx := start;
    while lx < linebuflen - 1 && lx < column - 1
      invariant start <= lx < linebuflen && (lx == start || lx <= column - 1)
      invariant Starts(linebuf, lx, hex + Spaces(lx - start))
      invariant Untouched(linebuf, lx + 1, old(linebuf[..]))
    {
      linebuf[lx] := ' ';
      lx := lx + 1;
    }
  }

  /** The second loop. */
  method WriteChars(row: seq<Byte>, linebuf: array<char>, linebuflen: nat, start: nat, ghost padded: string)
    returns (lx: nat)
    requires 1 <= linebuflen <= linebuf.Length && start < linebuflen && Starts(linebuf, start, padded)
    modifies linebuf
    ensures start <= lx < linebuflen
    ensures Starts(linebuf, lx,
      padded + Ascii(row[..Min(|row|, if |padded| + 2 <= linebuflen then linebuflen - 2 - |padded| else 0)]))
    ensures Untouched(linebuf, lx + 1, old(linebuf[..]))
  {
    lx := start;
    var j := 0;
    while j < |row| && lx + 2 < linebuflen
      invariant 0 <= j <= |row| && lx == start + j < linebuflen && (j > 0 ==> lx + 2 <= linebuflen)
      invariant Starts(linebuf, lx, padded + Ascii(row[..j]))
      invariant Untouched(linebuf, lx + 1, old(linebuf[..]))
    {
      assert row[..j + 1][..j] == row[..j];
      linebuf[lx] := Printable(row[j]);
      lx := lx + 1;
      j := j + 1;
    }
  }

  method WriteAscii(row: seq<Byte>, column: int, linebuf: array<char>, linebuflen: nat, start: nat, ghost hex: string)
    returns (lx: nat)
    requires 1 <= linebuflen <= linebuf.Length && start < linebuflen && Starts(linebuf, start, hex)
    modifies linebuf
    ensures start <= lx < linebuflen && Starts(linebuf, lx, WithAscii(hex, row, column, linebuflen))
    ensures Untouched(linebuf, lx + 1, old(linebuf[..]))
  {
    var end := Pad(column, linebuf, linebuflen, start, hex);
    lx := WriteChars(row, linebuf, linebuflen, end, hex + Spaces(Min(linebuflen - 1, column - 1) - |hex|));
  }

  /** A branch of the switch: the groups, and the column behind them at `width` characters a group. */
  method WriteGrouped(row: seq<Byte>, g: nat, width: nat, rowsize: int, linebuf: array<char>, linebuflen: nat)
    returns (lx: nat, asciiColumn: nat)
    requires Grouped(g) && width == 2 * g + 1
    requires |row| % g == 0 && 1 <= linebuflen <= linebuf.Length
    modifies linebuf
    ensures lx < linebuflen && Starts(linebuf, lx, HexPart(row, g, linebuflen))
    ensures Untouched(linebuf, lx + 1, old(linebuf[..]))
    ensures asciiColumn == AsciiColumn(row, g, rowsize)
  {
    var ngroups := |row| / g;
    WholeGroups(row, g);
    OffsetIsProduct(ngroups, width);
    lx := WriteGroups(row, g, ngroups, linebuf, linebuflen);
    asciiColumn := width * ngroups + 2;
  }

  /** The switch over the group size. */
  method WriteHex(row: seq<Byte>, rowsize: int, groupsize: nat, linebuf: array<char>, linebuflen: nat)
    returns (lx: nat, asciiColumn: nat)
    requires groupsize > 0 && |row| % groupsize == 0 && 1 <= linebuflen <= linebuf.Length
    requires rowsize == RowSize(rowsize)
    modifies linebuf
    ensures lx < linebuflen && Starts(linebuf, lx, HexPart(row, groupsize, linebuflen))
    ensures Untouched(linebuf, lx + 1, old(linebuf[..]))
    ensures asciiColumn == AsciiColumn(row, groupsize, rowsize)
  {
    if groupsize == 8 {
      lx, asciiColumn := WriteGrouped(row, 8, 17, rowsize, linebuf, linebuflen);
    } else if groupsize == 4 {
      lx, asciiColumn := WriteGrouped(row, 4, 9, rowsize, linebuf, linebuflen);
    } else if groupsize == 2 {
      lx, asciiColumn := WriteGrouped(row, 2, 5, rowsize, linebuf, linebuflen);
    } else {
      lx := WriteBytes(row, linebuf, linebuflen);
      asciiColumn := 3 * rowsize + 2;
    }
  }

  method WriteRow(row: seq<Byte>, rowsize: int, groupsize: nat, linebuf: array<char>, linebuflen: nat, ascii: bool)
    returns (lx: nat)
    requires groupsize > 0 && |row| % groupsize == 0 && 1 <= linebuflen <= linebuf.Length
    requires rowsize == RowSize(rowsize)
    modifies linebuf
    ensures lx < linebuflen && Starts(linebuf, lx, RowLine(row, rowsize, groupsize, linebuflen, ascii))
    ensures Untouched(linebuf, lx + 1, old(linebuf[..]))
  {
    var asciiColumn;
    lx, asciiColumn := WriteHex(row, rowsize, groupsize, linebuf, linebuflen);
    if ascii {
      lx := WriteAscii(row, asciiColumn, linebuf, linebuflen, lx, HexPart(row, groupsize, linebuflen));
    }
  }

  /** Conversion of an `int` to `size_t`. */
  function SizeT(x: int): (r: nat)
    requires x >= -0x8000_0000
    ensures r == x || (x < 0 && r > 0x1_0000_0000)
  {
    if x < 0 then x + 0x1_0000_0000_0000_0000 else x
  }

  lemma GroupSizeAsCompared(row: seq<Byte>, groupsize: int)
    requires 0 < |row| <= 32 && groupsize != 0 && groupsize >= -0x8000_0000
    ensures GroupSize(row, groupsize) == if |row| % SizeT(groupsize) != 0 then 1 else groupsize
  {
    if groupsize < 0 {
      ModUnique(|row|, 0, |row|, SizeT(groupsize));
    }
  }

  /** Everything but the terminating NUL. */
  method WriteLine(data: seq<Byte>, rowsize: int, groupsize: int, linebuf: array<char>, linebuflen: nat, ascii: bool)
    returns (lx: nat)
    requires 1 <= linebuflen <= linebuf.Length && (data != [] ==> groupsize != 0) && groupsize >= -0x8000_0000
    modifies linebuf
    ensures lx < linebuflen && Starts(linebuf, lx, Line(data, rowsize, groupsize, linebuflen, ascii))
    ensures Untouched(linebuf, lx + 1, old(linebuf[..]))
  {
    var rowsize', groupsize' := rowsize, groupsize;
    if rowsize' != 16 && rowsize' != 32 {
      rowsize' := 16;
    }
    if |data| == 0 {
      return 0;
    }
    var len := |data|;
    if len > rowsize' {
      len := rowsize';
    }
    GroupSizeAsCompared(data[..len], groupsize);
    if len % SizeT(groupsize') != 0 {
      groupsize' := 1;
    }
    lx := WriteRow(data[..len], rowsize', groupsize', linebuf, linebuflen, ascii);
  }

  /** hex_dump_to_buffer: the buffer holds the line and its NUL, and nothing behind them has changed. */
  method HexDumpToBuffer(data: seq<Byte>, rowsize: int, groupsize: int, linebuf: array<char>, linebuflen: nat,
                         ascii: bool)
    requires 1 <= linebuflen <= linebuf.Length && (data != [] ==> groupsize != 0) && groupsize >= -0x8000_0000
    modifies linebuf
    ensures var line := Line(data, rowsize, groupsize, linebuflen, ascii);
            && |line| < linebuflen && linebuf[..|line| + 1] == line + ['\0']
            && linebuf[|line| + 1..] == old(linebuf[|line| + 1..])
  {
    var lx := WriteLine(data, rowsize, groupsize, linebuf, linebuflen, ascii);
    linebuf[lx] := '\0';
  }
}
