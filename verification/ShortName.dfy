/** The 8.3 alias of a long name: the base cut to whole characters, and a search
    for a tail that is not in the directory. */
module ShortName {
  import opened Sequences
  import opened FatFormat
  import opened LongName

  const NAME := 11
  const SPACE: Byte := 32
  const TILDE: Byte := 126
  const ZERO: Byte := 48

  // ----- the directory -----

  /** strncmp of two 8.3 names is zero: it also stops where both end early. */
  predicate SameName(x: seq<Byte>, y: seq<Byte>)
    requires |x| == |y|
  {
    x == [] || (x[0] == y[0] && (x[0] == 0 || SameName(x[1..], y[1..])))
  }

  lemma {:induction false} SameNameIsEqual(x: seq<Byte>, y: seq<Byte>)
    requires |x| == |y| && 0 !in y
    ensures SameName(x, y) <==> x == y
    decreases |x|
  {
    if x != [] {
      SameNameIsEqual(x[1..], y[1..]);
      assert x == [x[0]] + x[1..] && y == [y[0]] + y[1..];
    }
  }

  ghost predicate Taken(dir: seq<Record>, name: seq<Byte>) {
    exists k :: 0 <= k < |dir| && IsShort(dir[k]) && dir[k][..NAME] == name
  }

  /** fat_scan through fat_get_short_entry */
  method Scan(dir: seq<Record>, name: seq<Byte>) returns (found: bool)
    requires |name| == NAME && 0 !in name
    ensures found <==> Taken(dir, name)
  {
    hide SameName;
    var pos := 0;
    while pos < |dir|
      invariant pos <= |dir|
      invariant forall k :: 0 <= k < pos && IsShort(dir[k]) ==> dir[k][..NAME] != name
    {
      var de := dir[pos];
      if !IsFree(de) && (Attr(de) / 8) % 2 == 0 {
        SameNameIsEqual(de[..NAME], name);
        if SameName(de[..NAME], name) { return true; }
      }
      pos := pos + 1;
    }
    found := false;
  }

  // ----- characters -----

  const DOT: Unit := 46
  const BLANK: Unit := 32
  const UNDERSCORE: Byte := 95

  predicate Skipped(u: Unit) { u == DOT || u == BLANK }

  /** [ ] ; , + = */
  predicate Replaced(u: Unit) { u == 91 || u == 93 || u == 59 || u == 44 || u == 43 || u == 61 }

  /** The character tables of the volume: a character in the volume's character
      set (nothing where it has none) and the character that bytes begin with, upper
      and lower case, and letters. */
  datatype Charset = Charset(narrow: Unit -> seq<Byte>, widen: seq<Byte> -> Option<(nat, Unit)>,
                             upper: Byte -> Byte, lower: Byte -> Byte, alpha: Byte -> bool) {
    ghost predicate Valid() {
      && (forall u :: 0 !in narrow(u))
      && (forall b :: b != [] && widen(b).Some? ==> 1 <= widen(b).value.0 <= |b|)
      && forall c :: c != 0 ==> upper(c) != 0
    }

    /** The set holds ASCII, with its cases. */
    ghost predicate Ascii() {
      && (forall b: Byte :: 32 <= b < 127 ==> narrow(b) == [b])
      && (forall u, b :: narrow(u) == [b] && b < 127 ==> u == b)
      && (forall b :: b != [] && 32 <= b[0] < 127 ==>
            widen(b).Some? && widen(b).value.0 == 1 && widen(b).value.1 == b[0])
      && (forall b :: 32 <= b < 127 ==> upper(b) == if 97 <= b <= 122 then b - 32 else b)
      && (forall b :: 32 <= b < 127 ==> (alpha(b) <==> 65 <= b <= 90 || 97 <= b <= 122))
      && forall b :: 32 <= b < 127 ==> if 65 <= b <= 90 then lower(b) == b + 32 else lower(b) == b || lower(b) == 0
    }
  }

  // the case of a part of a name, character by character

  ghost predicate Simple(cs: Charset, u: Unit) { |cs.narrow(u)| == 1 && cs.narrow(u)[0] < 0x7F }

  ghost predicate Letter(cs: Charset, u: Unit) { Simple(cs, u) && cs.alpha(cs.upper(cs.narrow(u)[0])) }

  ghost predicate OwnUpper(cs: Charset, u: Unit) { Simple(cs, u) && cs.upper(cs.narrow(u)[0]) == cs.narrow(u)[0] }

  /** Only characters below 0x7F, and every letter is its own upper case. */
  ghost predicate AllUpper(cs: Charset, part: seq<Unit>) {
    forall k :: 0 <= k < |part| ==> Simple(cs, part[k]) && (Letter(cs, part[k]) ==> OwnUpper(cs, part[k]))
  }

  ghost predicate AllLower(cs: Charset, part: seq<Unit>) {
    forall k :: 0 <= k < |part| ==> Simple(cs, part[k]) && (Letter(cs, part[k]) ==> !OwnUpper(cs, part[k]))
  }

  ghost predicate HasLetter(cs: Charset, part: seq<Unit>) {
    exists k :: 0 <= k < |part| && Letter(cs, part[k])
  }

  /** What shortname_info collects: could the letters all be of one case, and can
      the name stand for itself? */
  datatype Info = Info(lower: bool, upper: bool, valid: bool) {
    function And(x: Info): Info { Info(lower && x.lower, upper && x.upper, valid && x.valid) }
  }

  datatype Glyph = Glyph(bytes: seq<Byte>, info: Info)

  /** to_shortname_char */
  function Translate(cs: Charset, u: Unit): (g: Glyph)
    ensures u in {46, 32} <==> g.bytes == []
    ensures u in {91, 93, 59, 44, 43, 61} ==> g.bytes == [95]
    ensures u !in {46, 32, 91, 93, 59, 44, 43, 61} ==>
              g.bytes == match |cs.narrow(u)|
                         case 0 => [95]
                         case 1 => [cs.upper(cs.narrow(u)[0])]
                         case _ => cs.narrow(u)
  {
    if Skipped(u) then Glyph([], Info(true, true, false))
    else if Replaced(u) || cs.narrow(u) == [] then Glyph([UNDERSCORE], Info(true, true, false))
    else if |cs.narrow(u)| > 1 then Glyph(cs.narrow(u), Info(false, false, true))
    else
      var prev := cs.narrow(u)[0];
      var c := cs.upper(prev);
      var plain := prev < 0x7F;
      Glyph([c], Info(plain && (cs.alpha(c) ==> c != prev), plain && (cs.alpha(c) ==> c == prev), true))
  }

  function Glyphs(cs: Charset, name: seq<Unit>): (r: seq<Glyph>)
    ensures |r| == |name| && forall k :: 0 <= k < |r| ==> r[k] == Translate(cs, name[k])
  {
    seq(|name|, k requires 0 <= k < |name| => Translate(cs, name[k]))
  }

  function BytesOf(glyphs: seq<Glyph>): (r: seq<seq<Byte>>)
    ensures |r| == |glyphs| && forall k :: 0 <= k < |r| ==> r[k] == glyphs[k].bytes
  {
    seq(|glyphs|, k requires 0 <= k < |glyphs| => glyphs[k].bytes)
  }

  function AllInfo(glyphs: seq<Glyph>): Info {
    if glyphs == [] then Info(true, true, true) else AllInfo(glyphs[..|glyphs| - 1]).And(glyphs[|glyphs| - 1].info)
  }

  lemma AllInfoNext(glyphs: seq<Glyph>, i: nat)
    requires i < |glyphs|
    ensures AllInfo(glyphs[..i + 1]) == AllInfo(glyphs[..i]).And(glyphs[i].info)
  {
    assert glyphs[..i + 1][..i] == glyphs[..i];
  }

  lemma {:induction false} NoZeroJoined(chars: seq<seq<Byte>>)
    requires forall k :: 0 <= k < |chars| ==> 0 !in chars[k]
    ensures 0 !in Joined(chars)
    decreases |chars|
  {
    if chars != [] { NoZeroJoined(chars[..|chars| - 1]); }
  }

  lemma NoZeroGlyphs(cs: Charset, name: seq<Unit>)
    requires cs.Valid()
    ensures 0 !in Joined(BytesOf(Glyphs(cs, name)))
  {
    NoZeroJoined(BytesOf(Glyphs(cs, name)));
  }

  // ----- the base -----

  function Joined(chars: seq<seq<Byte>>): seq<Byte> {
    if chars == [] then [] else Joined(chars[..|chars| - 1]) + chars[|chars| - 1]
  }

  lemma JoinedNext(chars: seq<seq<Byte>>, i: nat)
    requires i < |chars|
    ensures Joined(chars[..i + 1]) == Joined(chars[..i]) + chars[i]
  {
    assert chars[..i + 1][..i] == chars[..i];
  }

  lemma {:induction false} JoinedPrefix(chars: seq<seq<Byte>>, i: nat)
    requires i <= |chars|
    ensures Joined(chars[..i]) <= Joined(chars)
    decreases |chars| - i
  {
    if i < |chars| {
      JoinedNext(chars, i);
      JoinedPrefix(chars, i + 1);
    } else {
      assert chars[..i] == chars;
    }
  }

  /** r is the size of the longest run of whole characters within n bytes. */
  ghost predicate IsCut(chars: seq<seq<Byte>>, n: nat, r: nat) {
    exists i :: CutAt(chars, n, r, i)
  }

  ghost predicate CutAt(chars: seq<seq<Byte>>, n: nat, r: nat, i: nat) {
    i < |chars| && r == |Joined(chars[..i])| <= n < |Joined(chars[..i])| + |chars[i]|
  }

  /** The cut of a limit, as the base loop finds it after some characters. */
  ghost predicate CutSoFar(chars: seq<seq<Byte>>, n: nat, r: nat, i: nat)
    requires i <= |chars|
  {
    if |Joined(chars[..i])| > n then IsCut(chars, n, r) else r == n
  }

  /** The two cuts: whole characters within six and within two bytes. */
  ghost predicate Cuts(chars: seq<seq<Byte>>, tail: nat, tail2: nat) {
    && (if |Joined(chars)| > 6 then IsCut(chars, 6, tail) else tail == 6)
    && (if |Joined(chars)| > 2 then IsCut(chars, 2, tail2) else tail2 == 2)
  }

  /** Do the characters fill at most n bytes, with none left once n are full? */
  ghost predicate Fitting(chars: seq<seq<Byte>>, n: nat) {
    |Joined(chars)| <= n && (chars != [] ==> |Joined(chars[..|chars| - 1])| < n)
  }

  /** The base loop: at most eight bytes, and how much of it stays in front of a
      short and of a long tail, never half a character. */
  method BuildBase(glyphs: seq<Glyph>) returns (base: seq<Byte>, tail: nat, tail2: nat, fits: bool, info: Info)
    ensures var chars := BytesOf(glyphs);
            && base == Joined(chars)[..Min(|Joined(chars)|, 8)]
            && Cuts(chars, tail, tail2)
            && (fits <==> Fitting(chars, 8))
    ensures tail <= 6 && tail2 <= 2 && (fits ==> info == AllInfo(glyphs))
  {
    ghost var chars := BytesOf(glyphs);
    base, tail, tail2, fits, info := [], 6, 2, true, Info(true, true, true);
    var i := 0;
    while i < |glyphs|
      invariant i <= |glyphs| && base == Joined(chars[..i]) && |base| < 8 && fits && tail <= 6 && tail2 <= 2
      invariant CutSoFar(chars, 6, tail, i) && CutSoFar(chars, 2, tail2, i) && info == AllInfo(glyphs[..i])
    {
      JoinedNext(chars, i);
      JoinedPrefix(chars, i + 1);
      AllInfoNext(glyphs, i);
      var letter := glyphs[i].bytes;
      info := info.And(glyphs[i].info);
      assert |base| <= 2 < |base| + |letter| ==> CutAt(chars, 2, |base|, i);
      assert |base| <= 6 < |base| + |letter| ==> CutAt(chars, 6, |base|, i);
      if |base| < 2 && |base| + |letter| > 2 { tail2 := |base|; }
      if |base| < 6 && |base| + |letter| > 6 { tail := |base|; }
      if |base| + |letter| >= 8 {
        fits := |base| + |letter| == 8 && i + 1 == |glyphs|;
        base := base + letter[..8 - |base|];
        FitsEnd(chars, i, 8);
        assert fits ==> glyphs[..i + 1] == glyphs;
        return;
      }
      base := base + letter;
      i := i + 1;
    }
    assert chars[..i] == chars && glyphs[..i] == glyphs;
    if chars != [] { JoinedPrefix(chars, |chars| - 1); }
  }

  lemma FitsEnd(chars: seq<seq<Byte>>, i: nat, n: nat)
    requires i < |chars| && |Joined(chars[..i])| < n <= |Joined(chars[..i])| + |chars[i]|
    ensures |Joined(chars)| >= n && Joined(chars)[..n] == Joined(chars[..i]) + chars[i][..n - |Joined(chars[..i])|]
    ensures Fitting(chars, n) <==> (|Joined(chars[..i])| + |chars[i]| == n && i + 1 == |chars|)
  {
    JoinedNext(chars, i);
    JoinedPrefix(chars, i + 1);
    if i + 1 < |chars| {
      JoinedPrefix(chars[..|chars| - 1], i + 1);
      assert chars[..|chars| - 1][..i + 1] == chars[..i + 1];
    } else {
      assert chars[..i + 1] == chars;
    }
  }

  /** As many whole characters of the extension as go into three bytes. */
  ghost predicate CutsExt(chars: seq<seq<Byte>>, ext: seq<Byte>) {
    |ext| <= 3 && ext <= Joined(chars) && (ext == Joined(chars) || |ext| == 3 || IsCut(chars, 3, |ext|))
  }

  /** The loop over the extension: whole characters within three bytes. */
  method BuildExt(glyphs: seq<Glyph>) returns (ext: seq<Byte>, fits: bool, info: Info)
    ensures CutsExt(BytesOf(glyphs), ext)
    ensures fits <==> Fitting(BytesOf(glyphs), 3)
    ensures fits ==> ext == Joined(BytesOf(glyphs)) && info == AllInfo(glyphs)
  {
    ghost var chars := BytesOf(glyphs);
    ext, fits, info := [], true, Info(true, true, true);
    var i := 0;
    while i < |glyphs|
      invariant i <= |glyphs| && ext == Joined(chars[..i]) && |ext| < 3 && fits && info == AllInfo(glyphs[..i])
    {
      JoinedNext(chars, i);
      JoinedPrefix(chars, i);
      JoinedPrefix(chars, i + 1);
      AllInfoNext(glyphs, i);
      var letter := glyphs[i].bytes;
      info := info.And(glyphs[i].info);
      if |ext| + |letter| >= 3 { FitsEnd(chars, i, 3); }
      if |ext| + |letter| > 3 {
        assert CutAt(chars, 3, |ext|, i);
        return ext, false, info;
      }
      ext := ext + letter;
      if |ext| == 3 {
        fits := i + 1 == |glyphs|;
        assert fits ==> glyphs[..i + 1] == glyphs && chars[..i + 1] == chars;
        return;
      }
      i := i + 1;
    }
    assert chars[..i] == chars && glyphs[..i] == glyphs;
    if chars != [] { JoinedPrefix(chars, |chars| - 1); }
  }

  /** The extension begins behind the last dot, if something follows the dot and
      something other than dots and blanks is before it. */
  ghost predicate ExtensionAt(name: seq<Unit>, ext: nat) {
    && 1 <= ext < |name| && name[ext - 1] == 46 && 46 !in name[ext..]
    && exists k :: 0 <= k < ext - 1 && name[k] !in {46, 32}
  }

  /** The base of the name is name[..size], its extension name[ext..], if any. */
  ghost predicate Split(name: seq<Unit>, size: nat, ext: int)
    ensures Split(name, size, ext) ==> size <= |name| && -1 <= ext <= |name|
  {
    if ext == -1 then size == |name| && forall k :: !ExtensionAt(name, k)
    else 0 <= ext && ExtensionAt(name, ext) && size == ext - 1
  }

  /** A name is split in one way only. */
  lemma SplitOnce(name: seq<Unit>, size: nat, ext: int, size': nat, ext': int)
    requires Split(name, size, ext) && Split(name, size', ext')
    ensures size == size' && ext == ext'
  {
  }

  lemma NoExtension(name: seq<Unit>, dot: nat, k: nat)
    requires dot < |name| && name[dot] == DOT && DOT !in name[dot + 1..]
    requires forall i :: 0 <= i < dot ==> Skipped(name[i])
    ensures !ExtensionAt(name, k)
  {
    if k <= dot {
      assert name[k..][dot - k] == DOT;
    } else if dot + 1 < k <= |name| {
      assert name[k - 1] == name[dot + 1..][k - 1 - (dot + 1)];
    }
  }

  method FindExtension(name: seq<Unit>) returns (size: nat, ext: int)
    ensures Split(name, size, ext)
  {
    var dot := |name| - 1;
    while dot >= 0 && name[dot] != DOT
      invariant -1 <= dot < |name| && DOT !in name[dot + 1..]
    {
      dot := dot - 1;
    }
    size, ext := |name|, -1;
    if dot == -1 || dot == |name| - 1 {
      return;
    }
    var start := 0;
    while start < dot && Skipped(name[start])
      invariant start <= dot && forall k :: 0 <= k < start ==> Skipped(name[k])
    {
      start := start + 1;
    }
    if start != dot {
      size, ext := dot, dot + 1;
    } else {
      forall k | 0 <= k ensures !ExtensionAt(name, k) { NoExtension(name, dot, k); }
    }
  }

  // ----- tails -----

  const VALUES := 0x1_0000
  const STEP := 11

  function Hex(d: nat): (r: Byte)
    requires d < 16
    ensures d < 10 ==> r == 48 + d
    ensures d >= 10 ==> r == 65 + (d - 10)
  {
    if d < 10 then ZERO + d else ZERO + 7 + d
  }

  /** "%04X" */
  function Hex4(v: nat): (r: seq<Byte>)
    requires v < VALUES
    ensures |r| == 4 && 0 !in r
    ensures r[0] == Hex(v / 4096) && r[1] == Hex(v / 256 % 16) && r[2] == Hex(v / 16 % 16) && r[3] == Hex(v % 16)
  {
    [Hex(v / 4096), Hex(v / 256 % 16), Hex(v / 16 % 16), Hex(v % 16)]
  }

  lemma HexOneToOne(c: nat, d: nat)
    requires c < 16 && d < 16 && Hex(c) == Hex(d)
    ensures c == d
  {
  }

  lemma FromDigits(v: nat)
    ensures v == 4096 * (v / 4096) + 256 * (v / 256 % 16) + 16 * (v / 16 % 16) + v % 16
  {
    assert v / 16 / 16 == v / 256 && v / 256 / 16 == v / 4096;
  }

  lemma Hex4OneToOne(v: nat, w: nat)
    requires v < VALUES && w < VALUES && Hex4(v) == Hex4(w)
    ensures v == w
  {
    hide Hex;
    var x, y := Hex4(v), Hex4(w);
    assert x[0] == y[0] && x[1] == y[1] && x[2] == y[2] && x[3] == y[3];
    HexOneToOne(v / 4096, w / 4096);
    HexOneToOne(v / 256 % 16, w / 256 % 16);
    HexOneToOne(v / 16 % 16, w / 16 % 16);
    HexOneToOne(v % 16, w % 16);
    FromDigits(v);
    FromDigits(w);
  }

  function Spaces(n: nat): (r: seq<Byte>)
    ensures |r| == n && 0 !in r
  {
    seq(n, _ => SPACE)
  }

  ghost predicate Formable(base: seq<Byte>, ext: seq<Byte>) {
    1 <= |base| <= 8 && |ext| <= 3 && 0 !in base && 0 !in ext
  }

  /** A name that can stand in a record without making it free. */
  ghost predicate Usable(name: seq<Byte>) { |name| == NAME && 0 !in name && name[0] != DELETED }

  /** Base and extension, filled with spaces; a leading 0xe5 is stored as 5. */
  function Form(base: seq<Byte>, ext: seq<Byte>): (r: seq<Byte>)
    requires Formable(base, ext)
    ensures Usable(r) && r[8..] == ext + Spaces(3 - |ext|)
    ensures r[0] == if base[0] == 0xe5 then 5 else base[0]
    ensures forall k :: 1 <= k < 8 ==> r[k] == if k < |base| then base[k] else 32
    ensures forall k :: 8 <= k < 11 ==> r[k] == if k - 8 < |ext| then ext[k - 8] else 32
  {
    var first: Byte := if base[0] == DELETED then 5 else base[0];
    [first] + base[1..] + Spaces(8 - |base|) + ext + Spaces(3 - |ext|)
  }

  /** What is needed to put a tail on a name: the name and where its base ends. */
  datatype Stem = Stem(name: seq<Byte>, at: nat) {
    ghost predicate Valid() { Usable(name) && at <= 6 }

    /** "~1" to "~9" */
    function Numbered(i: nat): (r: seq<Byte>)
      requires Valid() && 1 <= i <= 9
      ensures Usable(r) && r[8..] == name[8..]
      ensures r[at] == 126 && r[at + 1] == 48 + i
      ensures forall k :: 0 <= k < 11 && k != at && k != at + 1 ==> r[k] == name[k]
    {
      name[at := TILDE][at + 1 := ZERO + i]
    }

    /** Four hexadecimal digits, and the tail of the first digit. */
    function Hashed(v: nat, size: nat): (r: seq<Byte>)
      requires Valid() && at <= 2 && v < VALUES && size < 8
      ensures Usable(r) && r[8..] == name[8..]
      ensures r[at..at + 4] == Hex4(v) && r[at + 4] == 126 && r[at + 5] == 49 + size
      ensures forall k :: 0 <= k < 11 && !(at <= k < at + 6) ==> r[k] == name[k]
    {
      name[..at] + Hex4(v) + [TILDE, ZERO + 1 + size] + name[at + 6..]
    }

    lemma HashedOneToOne(v: nat, w: nat, size: nat)
      requires Valid() && at <= 2 && v < VALUES && w < VALUES && size < 8 && Hashed(v, size) == Hashed(w, size)
      ensures v == w
    {
      hide Hex4;
      assert Hashed(v, size)[at..at + 4] == Hex4(v);
      assert Hashed(w, size)[at..at + 4] == Hex4(w);
      Hex4OneToOne(v, w);
    }
  }

  /** The stem of the numbered tails. */
  function ShortStem(base: seq<Byte>, ext: seq<Byte>, tail: nat): (r: Stem)
    requires 1 <= |base| <= 8 && |ext| <= 3 && 0 !in base && 0 !in ext && tail <= 6
    ensures r.Valid() && r.name[8..] == Form(base, ext)[8..]
    ensures r.at == if |base| > 6 then tail else |base|
    ensures forall k :: 0 <= k < 11 ==> r.name[k] == if |base| > 6 && k == 7 then 32 else Form(base, ext)[k]
  {
    if |base| > 6 then Stem(Form(base, ext)[7 := SPACE], tail) else Stem(Form(base, ext), |base|)
  }

  /** The stem of the hashed tails, made from the last numbered name. */
  function LongStem(short: Stem, tail2: nat): (r: Stem)
    requires short.Valid() && tail2 <= 2
    ensures r.Valid() && r.at <= 2 && r.name[8..] == short.name[8..]
    ensures r.at == if short.at > 2 then tail2 else short.at
    ensures forall k :: 0 <= k < 11 ==>
              r.name[k] == if short.at > 2 && k == 7 then 32
                           else if k == short.at then 126
                           else if k == short.at + 1 then 57
                           else short.name[k]
  {
    var name := short.Numbered(9);
    if short.at > 2 then Stem(name[7 := SPACE], tail2) else Stem(name, short.at)
  }

  // the names with a tail, byte by byte

  /** Where the tail of a base begins. */
  ghost function TailAt(base: seq<Byte>, tail: nat): nat { if |base| > 6 then tail else |base| }

  /** The 8.3 form with "~" and a digit from 1 to 9 in it. */
  ghost predicate TildeName(x: seq<Byte>, base: seq<Byte>, ext: seq<Byte>, tail: nat, i: nat)
    requires Formable(base, ext) && tail <= 6
  {
    var at := TailAt(base, tail);
    && |x| == 11 && x[at] == 126 && x[at + 1] == 48 + i
    && forall k :: 0 <= k < 11 && k != at && k != at + 1 ==>
         x[k] == if |base| > 6 && k == 7 then 32 else Form(base, ext)[k]
  }

  /** Where the four digits of a hashed tail begin. */
  ghost function HashAt(base: seq<Byte>, tail: nat, tail2: nat): nat {
    if TailAt(base, tail) > 2 then tail2 else TailAt(base, tail)
  }

  /** The name with "~9" in it, over which the four digits of v, "~" and a digit
      from 1 to 8 are written. */
  ghost predicate HashName(x: seq<Byte>, base: seq<Byte>, ext: seq<Byte>, tail: nat, tail2: nat, v: nat, size: nat)
    requires Formable(base, ext) && tail <= 6 && tail2 <= 2 && v < VALUES
  {
    var at, was := HashAt(base, tail, tail2), TailAt(base, tail);
    && |x| == 11 && x[at..at + 4] == Hex4(v) && x[at + 4] == 126 && x[at + 5] == 49 + size
    && forall k :: 0 <= k < 11 && !(at <= k < at + 6) ==>
         x[k] == if was > 2 && k == 7 then 32
                 else if k == was then 126
                 else if k == was + 1 then 57
                 else if |base| > 6 && k == 7 then 32
                 else Form(base, ext)[k]
  }

  lemma NumberedIs(base: seq<Byte>, ext: seq<Byte>, tail: nat, i: nat, x: seq<Byte>)
    requires Formable(base, ext) && tail <= 6 && 1 <= i <= 9
    ensures ShortStem(base, ext, tail).Numbered(i) == x <==> TildeName(x, base, ext, tail, i)
  {
    hide Form, ShortStem, Stem.Numbered;
    var y := ShortStem(base, ext, tail).Numbered(i);
    assert TildeName(y, base, ext, tail, i);
    if TildeName(x, base, ext, tail, i) {
      assert forall k :: 0 <= k < 11 ==> x[k] == y[k];
    }
  }

  lemma HashedHas(base: seq<Byte>, ext: seq<Byte>, tail: nat, tail2: nat, v: nat, size: nat)
    requires Formable(base, ext) && tail <= 6 && tail2 <= 2 && v < VALUES && size < 8
    ensures HashName(LongStem(ShortStem(base, ext, tail), tail2).Hashed(v, size), base, ext, tail, tail2, v, size)
  {
    hide Form, Hex4, ShortStem, LongStem, Stem.Hashed, Stem.Numbered;
    var short := ShortStem(base, ext, tail);
    assert short.at == TailAt(base, tail) && LongStem(short, tail2).at == HashAt(base, tail, tail2);
  }

  lemma HashNameOnce(x: seq<Byte>, y: seq<Byte>, base: seq<Byte>, ext: seq<Byte>, tail: nat, tail2: nat, v: nat,
                     size: nat)
    requires Formable(base, ext) && tail <= 6 && tail2 <= 2 && v < VALUES
    requires HashName(x, base, ext, tail, tail2, v, size) && HashName(y, base, ext, tail, tail2, v, size)
    ensures x == y
  {
    hide Form, Hex4;
    var at := HashAt(base, tail, tail2);
    forall k | 0 <= k < 11 ensures x[k] == y[k] {
      if at <= k < at + 4 { assert x[at..at + 4][k - at] == y[at..at + 4][k - at]; }
    }
  }

  lemma HashedIs(base: seq<Byte>, ext: seq<Byte>, tail: nat, tail2: nat, v: nat, size: nat, x: seq<Byte>)
    requires Formable(base, ext) && tail <= 6 && tail2 <= 2 && v < VALUES && size < 8
    ensures LongStem(ShortStem(base, ext, tail), tail2).Hashed(v, size) == x <==>
            HashName(x, base, ext, tail, tail2, v, size)
  {
    hide Form, Hex4, HashName, LongStem, ShortStem, Stem.Hashed;
    HashedHas(base, ext, tail, tail2, v, size);
    if HashName(x, base, ext, tail, tail2, v, size) {
      HashNameOnce(x, LongStem(ShortStem(base, ext, tail), tail2).Hashed(v, size), base, ext, tail, tail2, v, size);
    }
  }

  // ----- the search -----

  /** `plain` is the return of 1: no long name is stored beside the alias. */
  datatype Result = BadName | NameTaken | Alias(name: seq<Byte>, plain: bool, lowerBase: bool, lowerExt: bool) | Endless

  /** The mount options: win95 or else winnt short names, and numeric tails. */
  datatype Options = Options(win95: bool, numtail: bool)

  /** The value of probe k of the last loop. */
  function Probe(start: nat, k: nat): (r: nat)
    ensures r < VALUES
  {
    (start - STEP * k) % VALUES
  }

  /** Stepping down by 11 meets every 16-bit value within 65536 probes. */
  lemma ProbeCovers(start: nat, v: nat) returns (k: nat)
    requires v < VALUES
    ensures k < VALUES && Probe(start, k) == v
  {
    var d: int := start - v;
    k := (d * 35747) % VALUES;
    var q := (d * 35747) / VALUES;
    assert d * 35747 == VALUES * q + k;
    assert start - STEP * k == v + VALUES * (STEP * q - 6 * d);
  }

  lemma ProbeNext(start: nat, k: nat)
    ensures (Probe(start, k) - STEP) % VALUES == Probe(start, k + 1)
  {
    var x := start - STEP * k;
    var q := x / VALUES;
    assert x == VALUES * q + x % VALUES;
    assert x - STEP == VALUES * q + (x % VALUES - STEP);
  }

  ghost predicate AllHashedTaken(dir: seq<Record>, stem: Stem, size: nat)
    requires stem.Valid() && stem.at <= 2 && size < 8
  {
    forall v :: 0 <= v < VALUES ==> Taken(dir, stem.Hashed(v, size))
  }

  /** name is the first of the hashed names that is not taken, going down by 11. */
  ghost predicate FirstHashed(dir: seq<Record>, stem: Stem, start: nat, size: nat, name: seq<Byte>)
    requires stem.Valid() && stem.at <= 2 && size < 8
  {
    exists k: nat :: name == stem.Hashed(Probe(start, k), size)
                     && forall j :: 0 <= j < k ==> Taken(dir, stem.Hashed(Probe(start, j), size))
  }

  ghost predicate FirstNumbered(dir: seq<Record>, stem: Stem, name: seq<Byte>)
    requires stem.Valid()
  {
    exists i :: 1 <= i <= 9 && name == stem.Numbered(i) && forall j :: 1 <= j < i ==> Taken(dir, stem.Numbered(j))
  }

  /** The last loop.  It goes on for ever exactly when all its names are taken,
      which the model notices after 65536 probes. */
  method ProbeHashed(dir: seq<Record>, stem: Stem, start: nat, size: nat) returns (found: bool, name: seq<Byte>)
    requires stem.Valid() && stem.at <= 2 && size < 8
    ensures !found <==> AllHashedTaken(dir, stem, size)
    ensures found ==> Usable(name) && !Taken(dir, name) && FirstHashed(dir, stem, start, size, name)
    ensures found ==> name[8..] == stem.name[8..]
  {
    hide Stem.Hashed, Taken;
    var i: nat := start % VALUES;
    assert i == Probe(start, 0);
    hide Probe;
    for k := 0 to VALUES
      invariant i == Probe(start, k) < VALUES
      invariant forall j :: 0 <= j < k ==> Taken(dir, stem.Hashed(Probe(start, j), size))
    {
      name := stem.Hashed(i, size);
      var taken := Scan(dir, name);
      if !taken { return true, name; }
      ProbeNext(start, k);
      i := (i - STEP) % VALUES;
    }
    forall v | 0 <= v < VALUES ensures Taken(dir, stem.Hashed(v, size)) {
      var k := ProbeCovers(start, v);
    }
    found, name := false, [];
  }

  /** The loop over the numbered tails. */
  method ProbeNumbered(dir: seq<Record>, stem: Stem) returns (found: bool, name: seq<Byte>)
    requires stem.Valid()
    ensures !found <==> forall i :: 1 <= i <= 9 ==> Taken(dir, stem.Numbered(i))
    ensures found ==> Usable(name) && !Taken(dir, name) && FirstNumbered(dir, stem, name)
    ensures found ==> name[8..] == stem.name[8..]
  {
    hide Stem.Numbered, Taken;
    for i := 1 to 10
      invariant forall j :: 1 <= j < i ==> Taken(dir, stem.Numbered(j))
    {
      name := stem.Numbered(i);
      var taken := Scan(dir, name);
      if !taken { return true, name; }
    }
    found, name := false, [];
  }

  /** A numbered alias: the least digit whose name is not taken. */
  ghost predicate LeastTilde(dir: seq<Record>, base: seq<Byte>, ext: seq<Byte>, tail: nat, name: seq<Byte>)
    requires Formable(base, ext) && tail <= 6
  {
    exists i :: 1 <= i <= 9 && TildeName(name, base, ext, tail, i)
                && forall j, x :: 1 <= j < i && TildeName(x, base, ext, tail, j) ==> Taken(dir, x)
  }

  ghost predicate AllTildeTaken(dir: seq<Record>, base: seq<Byte>, ext: seq<Byte>, tail: nat)
    requires Formable(base, ext) && tail <= 6
  {
    forall j, x :: 1 <= j <= 9 && TildeName(x, base, ext, tail, j) ==> Taken(dir, x)
  }

  ghost function DownFrom(jiffies: nat, k: nat): nat { (jiffies - 11 * k) % 0x1_0000 }

  /** A hashed alias: the first name that is not taken, from the low 16 bits of
      the time down by 11, with three more bits of the time behind the tilde. */
  ghost predicate FirstHash(dir: seq<Record>, base: seq<Byte>, ext: seq<Byte>, tail: nat, tail2: nat, jiffies: nat,
                            name: seq<Byte>)
    requires Formable(base, ext) && tail <= 6 && tail2 <= 2
  {
    var size := jiffies / 0x1_0000 % 8;
    exists k: nat ::
      && HashName(name, base, ext, tail, tail2, DownFrom(jiffies, k), size)
      && forall j, x :: 0 <= j < k && HashName(x, base, ext, tail, tail2, DownFrom(jiffies, j), size) ==> Taken(dir, x)
  }

  lemma LeastTildeIs(dir: seq<Record>, base: seq<Byte>, ext: seq<Byte>, tail: nat, name: seq<Byte>)
    requires Formable(base, ext) && tail <= 6 && FirstNumbered(dir, ShortStem(base, ext, tail), name)
    ensures LeastTilde(dir, base, ext, tail, name)
  {
    hide TildeName, ShortStem, Stem.Numbered, Taken, Form;
    var stem := ShortStem(base, ext, tail);
    var i :| 1 <= i <= 9 && name == stem.Numbered(i) && forall j :: 1 <= j < i ==> Taken(dir, stem.Numbered(j));
    NumberedIs(base, ext, tail, i, name);
    forall j, x | 1 <= j < i && TildeName(x, base, ext, tail, j) ensures Taken(dir, x) {
      NumberedIs(base, ext, tail, j, x);
    }
  }

  lemma AllTildeTakenIs(dir: seq<Record>, base: seq<Byte>, ext: seq<Byte>, tail: nat)
    requires Formable(base, ext) && tail <= 6
    requires forall i :: 1 <= i <= 9 ==> Taken(dir, ShortStem(base, ext, tail).Numbered(i))
    ensures AllTildeTaken(dir, base, ext, tail)
  {
    hide TildeName, ShortStem, Stem.Numbered, Taken, Form;
    forall j, x | 1 <= j <= 9 && TildeName(x, base, ext, tail, j) ensures Taken(dir, x) {
      NumberedIs(base, ext, tail, j, x);
    }
  }

  lemma FirstHashIs(dir: seq<Record>, base: seq<Byte>, ext: seq<Byte>, tail: nat, tail2: nat, jiffies: nat,
                    name: seq<Byte>)
    requires Formable(base, ext) && tail <= 6 && tail2 <= 2
    requires FirstHashed(dir, LongStem(ShortStem(base, ext, tail), tail2), jiffies, jiffies / VALUES % 8, name)
    ensures FirstHash(dir, base, ext, tail, tail2, jiffies, name)
  {
    hide HashName, ShortStem, LongStem, Stem.Hashed, Taken, Form;
    var stem, size := LongStem(ShortStem(base, ext, tail), tail2), jiffies / VALUES % 8;
    var k: nat :| name == stem.Hashed(Probe(jiffies, k), size)
                  && forall j :: 0 <= j < k ==> Taken(dir, stem.Hashed(Probe(jiffies, j), size));
    HashedIs(base, ext, tail, tail2, Probe(jiffies, k), size, name);
    assert HashName(name, base, ext, tail, tail2, DownFrom(jiffies, k), size);
    forall j, x | 0 <= j < k && HashName(x, base, ext, tail, tail2, DownFrom(jiffies, j), size)
      ensures Taken(dir, x)
    {
      HashedIs(base, ext, tail, tail2, Probe(jiffies, j), size, x);
    }
  }

  /** Which alias a name that is not its own gets. */
  ghost predicate AliasFor(dir: seq<Record>, base: seq<Byte>, ext: seq<Byte>, tail: nat, tail2: nat, numtail: bool,
                           jiffies: nat, name: seq<Byte>)
    requires Formable(base, ext) && tail <= 6 && tail2 <= 2
  {
    if !numtail && !Taken(dir, Form(base, ext)) then name == Form(base, ext)
    else
      || LeastTilde(dir, base, ext, tail, name)
      || (AllTildeTaken(dir, base, ext, tail) && FirstHash(dir, base, ext, tail, tail2, jiffies, name))
  }

  /** Every name the search would try is taken. */
  ghost predicate Exhausted(dir: seq<Record>, stem: Stem, tail2: nat, size: nat)
    requires stem.Valid() && tail2 <= 2 && size < 8
  {
    (forall i :: 1 <= i <= 9 ==> Taken(dir, stem.Numbered(i))) && AllHashedTaken(dir, LongStem(stem, tail2), size)
  }

  /** vfat_create_shortname after base and extension were cut.  An alias that is
      returned is not in the directory; the search never ends only when every
      name it could try is there. */
  method CreateAlias(dir: seq<Record>, base: seq<Byte>, ext: seq<Byte>, tail: nat, tail2: nat, isShort: bool,
                     baseCase: Info, extCase: Info, options: Options, jiffies: nat) returns (r: Result)
    requires |base| <= 8 && |ext| <= 3 && 0 !in base && 0 !in ext && tail <= 6 && tail2 <= 2
    ensures r.BadName? <==> base == []
    ensures r.Alias? ==> Usable(r.name) && !Taken(dir, r.name) && r.name[8..] == ext + Spaces(3 - |ext|)
    ensures r.Alias? && isShort && options.win95 ==>
              (r.plain <==> baseCase.upper && extCase.upper) && !r.lowerBase && !r.lowerExt
    ensures r.Alias? && isShort && !options.win95 ==>
              && (r.plain <==> (baseCase.upper || baseCase.lower) && (extCase.upper || extCase.lower))
              && (r.lowerBase <==> r.plain && !baseCase.upper && baseCase.lower)
              && (r.lowerExt <==> r.plain && !extCase.upper && extCase.lower)
    ensures r.Alias? && !isShort ==> !r.plain && !r.lowerBase && !r.lowerExt
    ensures r.Alias? && isShort ==> r.name == Form(base, ext)
    ensures r.Alias? && !isShort ==> AliasFor(dir, base, ext, tail, tail2, options.numtail, jiffies, r.name)
    ensures base != [] ==>
              && (r.NameTaken? <==> isShort && Taken(dir, Form(base, ext)))
              && (r.Endless? <==>
                    && !isShort && (options.numtail || Taken(dir, Form(base, ext)))
                    && Exhausted(dir, ShortStem(base, ext, tail), tail2, jiffies / VALUES % 8))
    ensures |NamesIn(dir)| < VALUES ==> !r.Endless?
  {
    hide NamesIn, Form, ShortStem, LongStem, Taken, Stem.Numbered, Stem.Hashed, AllHashedTaken, LeastTilde, FirstHash,
      AllTildeTaken, FirstHashed, FirstNumbered;
    if base == [] { return BadName; }
    var name := Form(base, ext);
    if isShort {
      var taken := Scan(dir, name);
      if taken { return NameTaken; }
      if options.win95 {
        return Alias(name, baseCase.upper && extCase.upper, false, false);
      }
      if (baseCase.upper || baseCase.lower) && (extCase.upper || extCase.lower) {
        return Alias(name, true, !baseCase.upper && baseCase.lower, !extCase.upper && extCase.lower);
      }
      return Alias(name, false, false, false);
    }
    if !options.numtail {
      var taken := Scan(dir, name);
      if !taken { return Alias(name, false, false, false); }
    }
    var stem := ShortStem(base, ext, tail);
    var found;
    found, name := ProbeNumbered(dir, stem);
    if found {
      LeastTildeIs(dir, base, ext, tail, name);
      return Alias(name, false, false, false);
    }
    AllTildeTakenIs(dir, base, ext, tail);
    var long := LongStem(stem, tail2);
    if |NamesIn(dir)| < VALUES { FewNamesEnd(dir, long, jiffies / VALUES % 8); }
    found, name := ProbeHashed(dir, long, jiffies, jiffies / VALUES % 8);
    if found { FirstHashIs(dir, base, ext, tail, tail2, jiffies, name); }
    r := if found then Alias(name, false, false, false) else Endless;
  }

  /** Base and extension of a name, as characters of the volume. */
  ghost function BaseOf(cs: Charset, name: seq<Unit>, size: nat): seq<Byte>
    requires size <= |name|
  {
    Joined(BytesOf(Glyphs(cs, name[..size])))
  }

  ghost function ExtOf(cs: Charset, name: seq<Unit>, ext: int): seq<Byte>
    requires -1 <= ext <= |name|
  {
    if ext == -1 then [] else Joined(BytesOf(Glyphs(cs, name[ext..])))
  }

  /** Does this part of the name stand for itself: every character has its own
      form in the volume's set, and all of them fit n bytes? */
  ghost predicate Stands(cs: Charset, part: seq<Unit>, n: nat) {
    && Fitting(BytesOf(Glyphs(cs, part)), n)
    && forall k :: 0 <= k < |part| ==>
         part[k] !in {46, 32} && part[k] !in {91, 93, 59, 44, 43, 61} && cs.narrow(part[k]) != []
  }

  lemma {:induction false} AllValid(glyphs: seq<Glyph>)
    ensures AllInfo(glyphs).valid <==> forall k :: 0 <= k < |glyphs| ==> glyphs[k].info.valid
    decreases |glyphs|
  {
    if glyphs != [] {
      var rest := glyphs[..|glyphs| - 1];
      AllValid(rest);
      assert forall k :: 0 <= k < |rest| ==> rest[k] == glyphs[k];
    }
  }

  lemma StandsIff(cs: Charset, part: seq<Unit>, n: nat)
    ensures Stands(cs, part, n) <==> Fitting(BytesOf(Glyphs(cs, part)), n) && AllInfo(Glyphs(cs, part)).valid
  {
    AllValid(Glyphs(cs, part));
    var g := Glyphs(cs, part);
    assert forall k :: 0 <= k < |part| ==> g[k] == Translate(cs, part[k]);
  }

  lemma {:induction false} AllCases(glyphs: seq<Glyph>)
    ensures AllInfo(glyphs).upper <==> forall k :: 0 <= k < |glyphs| ==> glyphs[k].info.upper
    ensures AllInfo(glyphs).lower <==> forall k :: 0 <= k < |glyphs| ==> glyphs[k].info.lower
    decreases |glyphs|
  {
    if glyphs != [] {
      var rest := glyphs[..|glyphs| - 1];
      AllCases(rest);
      assert forall k :: 0 <= k < |rest| ==> rest[k] == glyphs[k];
    }
  }

  lemma CaseOf(cs: Charset, u: Unit)
    requires !Skipped(u) && !Replaced(u) && cs.narrow(u) != []
    ensures var i := Translate(cs, u).info;
            && (i.upper <==> Simple(cs, u) && (Letter(cs, u) ==> OwnUpper(cs, u)))
            && (i.lower <==> Simple(cs, u) && (Letter(cs, u) ==> !OwnUpper(cs, u)))
  {
  }

  /** The flags collected over a part that stands for itself are its case. */
  lemma CasesIff(cs: Charset, part: seq<Unit>, n: nat)
    requires Stands(cs, part, n)
    ensures var i := AllInfo(Glyphs(cs, part));
            (i.upper <==> AllUpper(cs, part)) && (i.lower <==> AllLower(cs, part))
  {
    hide Simple, Letter, OwnUpper, Translate, AllInfo, Fitting;
    var g := Glyphs(cs, part);
    AllCases(g);
    forall k | 0 <= k < |part|
      ensures g[k].info.upper <==> Simple(cs, part[k]) && (Letter(cs, part[k]) ==> OwnUpper(cs, part[k]))
      ensures g[k].info.lower <==> Simple(cs, part[k]) && (Letter(cs, part[k]) ==> !OwnUpper(cs, part[k]))
    {
      CaseOf(cs, part[k]);
    }
    assert forall k :: 0 <= k < |part| ==> g[k].info.upper ==> Simple(cs, part[k]);
  }

  lemma LowerHasLetter(cs: Charset, part: seq<Unit>)
    requires AllLower(cs, part)
    ensures HasLetter(cs, part) <==> !AllUpper(cs, part)
  {
    hide Simple, Letter, OwnUpper;
  }

  /** The extension as a part of the name. */
  ghost function Tail(name: seq<Unit>, ext: int): seq<Unit>
    requires -1 <= ext <= |name|
  {
    if ext == -1 then [] else name[ext..]
  }

  /** Will one record do for a name of its own form?  With win95 names for upper
      case, with winnt names for parts of one case each. */
  ghost predicate OneRecord(cs: Charset, base: seq<Unit>, tail: seq<Unit>, win95: bool) {
    if win95 then AllUpper(cs, base) && AllUpper(cs, tail)
    else (AllUpper(cs, base) || AllLower(cs, base)) && (AllUpper(cs, tail) || AllLower(cs, tail))
  }

  /** Is the case of an alias noted right?  Lower case is noted where it is needed. */
  ghost predicate CaseNoted(cs: Charset, base: seq<Unit>, tail: seq<Unit>, win95: bool, plain: bool, lowerBase: bool,
                            lowerExt: bool) {
    && (plain <==> OneRecord(cs, base, tail, win95))
    && (lowerBase <==> plain && !win95 && AllLower(cs, base) && HasLetter(cs, base))
    && (lowerExt <==> plain && !win95 && AllLower(cs, tail) && HasLetter(cs, tail))
  }

  ghost predicate OwnForm(cs: Charset, name: seq<Unit>, size: nat, ext: int)
    requires size <= |name| && -1 <= ext <= |name|
  {
    Stands(cs, name[..size], 8) && (ext != -1 ==> Stands(cs, name[ext..], 3))
  }

  /** The alias of a name that is not its own 8.3 form: made of the first eight
      bytes of its base and the extension cut to three. */
  ghost predicate NewAlias(dir: seq<Record>, cs: Charset, name: seq<Unit>, size: nat, ext: int, numtail: bool,
                           jiffies: nat, alias: seq<Byte>)
    requires size <= |name| && -1 <= ext <= |name|
  {
    exists b, e, tail, tail2 ::
      && AliasParts(cs, name, size, ext, b, e, tail, tail2)
      && AliasFor(dir, b, e, tail, tail2, numtail, jiffies, alias)
  }

  ghost predicate AliasParts(cs: Charset, name: seq<Unit>, size: nat, ext: int, b: seq<Byte>, e: seq<Byte>, tail: nat,
                             tail2: nat)
    requires size <= |name| && -1 <= ext <= |name|
  {
    && Formable(b, e) && tail <= 6 && tail2 <= 2
    && b == BaseOf(cs, name, size)[..Min(8, |BaseOf(cs, name, size)|)]
    && Cuts(BytesOf(Glyphs(cs, name[..size])), tail, tail2)
    && if ext == -1 then e == [] else CutsExt(BytesOf(Glyphs(cs, name[ext..])), e)
  }

  /** The name is its own 8.3 form and the directory has that form. */
  ghost predicate HasName(dir: seq<Record>, cs: Charset, name: seq<Unit>) {
    exists size, ext :: Split(name, size, ext) && HasForm(dir, cs, name, size, ext)
  }

  ghost predicate HasForm(dir: seq<Record>, cs: Charset, name: seq<Unit>, size: nat, ext: int)
    requires size <= |name| && -1 <= ext <= |name|
  {
    var b, e := BaseOf(cs, name, size), ExtOf(cs, name, ext);
    OwnForm(cs, name, size, ext) && Formable(b, e) && Taken(dir, Form(b, e))
  }

  lemma HasNameIff(dir: seq<Record>, cs: Charset, name: seq<Unit>, size: nat, ext: int)
    requires Split(name, size, ext)
    ensures HasName(dir, cs, name) <==> HasForm(dir, cs, name, size, ext)
  {
    hide Split, HasForm;
    if HasName(dir, cs, name) {
      var size', ext' :| Split(name, size', ext') && HasForm(dir, cs, name, size', ext');
      SplitOnce(name, size, ext, size', ext');
    }
  }

  /** vfat_create_shortname.  A name with no usable character is refused.  A name
      that stands for itself within eight and three characters is refused if the
      directory has it, and never renamed.  Any other gets an alias that is new to
      the directory, and one is found unless 65536 short names exist. */
  method CreateShortName(dir: seq<Record>, name: seq<Unit>, cs: Charset, options: Options, jiffies: nat)
    returns (r: Result, ghost size: nat, ghost ext: int)
    requires cs.Valid()
    ensures Split(name, size, ext)
    ensures r.BadName? <==> BaseOf(cs, name, size) == []
    ensures r.Alias? ==> Usable(r.name) && !Taken(dir, r.name)
    ensures |NamesIn(dir)| < VALUES ==> !r.Endless?
    ensures var b, e := BaseOf(cs, name, size), ExtOf(cs, name, ext);
            && (r.NameTaken? <==> HasName(dir, cs, name))
            && (r.Alias? && OwnForm(cs, name, size, ext) ==> Formable(b, e) && r.name == Form(b, e))
    ensures r.Alias? && !OwnForm(cs, name, size, ext) ==>
              NewAlias(dir, cs, name, size, ext, options.numtail, jiffies, r.name)
    ensures r.Alias? ==>
              if OwnForm(cs, name, size, ext)
              then CaseNoted(cs, name[..size], Tail(name, ext), options.win95, r.plain, r.lowerBase, r.lowerExt)
              else !r.plain && !r.lowerBase && !r.lowerExt
  {
    hide Split, HasName, Stands, Glyphs, BytesOf, Joined, Taken, Form, ShortStem, LongStem, AllInfo, NamesIn, IsCut,
      Exhausted, CaseNoted, AliasFor, Cuts;
    var n, at := FindExtension(name);
    size, ext := n, at;
    NoZeroGlyphs(cs, name[..n]);
    var base, tail, tail2, fits, info := BuildBase(Glyphs(cs, name[..n]));
    var extension, extFits, extInfo := [], true, Info(true, true, true);
    if at != -1 {
      NoZeroGlyphs(cs, name[at..]);
      extension, extFits, extInfo := BuildExt(Glyphs(cs, name[at..]));
    }
    assert fits ==> base == BaseOf(cs, name, n);
    HasNameIff(dir, cs, name, n, at);
    StandsIff(cs, name[..n], 8);
    if at != -1 { StandsIff(cs, name[at..], 3); }
    var short := fits && extFits && info.valid && extInfo.valid;
    r := CreateAlias(dir, base, extension, tail, tail2, short, info, extInfo, options, jiffies);
    if r.Alias? && !short {
      assert AliasParts(cs, name, n, at, base, extension, tail, tail2);
    }
    if short && r.Alias? { CaseIsNoted(cs, name, n, at, options, info, extInfo, r); }
  }

  lemma CaseIsNoted(cs: Charset, name: seq<Unit>, size: nat, ext: int, options: Options, info: Info, extInfo: Info,
                    r: Result)
    requires size <= |name| && -1 <= ext <= |name| && OwnForm(cs, name, size, ext) && r.Alias?
    requires info == AllInfo(Glyphs(cs, name[..size]))
    requires extInfo == if ext == -1 then Info(true, true, true) else AllInfo(Glyphs(cs, name[ext..]))
    requires options.win95 ==> (r.plain <==> info.upper && extInfo.upper) && !r.lowerBase && !r.lowerExt
    requires !options.win95 ==>
               && (r.plain <==> (info.upper || info.lower) && (extInfo.upper || extInfo.lower))
               && (r.lowerBase <==> r.plain && !info.upper && info.lower)
               && (r.lowerExt <==> r.plain && !extInfo.upper && extInfo.lower)
    ensures CaseNoted(cs, name[..size], Tail(name, ext), options.win95, r.plain, r.lowerBase, r.lowerExt)
  {
    hide Stands, AllInfo, Glyphs;
    CasesIff(cs, name[..size], 8);
    if ext != -1 { CasesIff(cs, name[ext..], 3); }
    if AllLower(cs, name[..size]) { LowerHasLetter(cs, name[..size]); }
    if AllLower(cs, Tail(name, ext)) { LowerHasLetter(cs, Tail(name, ext)); }
    hide AllUpper, AllLower, HasLetter;
  }

  // ----- the last loop ends -----

  ghost function NamesIn(dir: seq<Record>): set<seq<Byte>> {
    set k | 0 <= k < |dir| && IsShort(dir[k]) :: dir[k][..NAME]
  }

  ghost function Family(stem: Stem, size: nat, n: nat): (r: set<seq<Byte>>)
    requires stem.Valid() && stem.at <= 2 && size < 8 && n <= VALUES
  {
    set v | 0 <= v < n :: stem.Hashed(v, size)
  }

  lemma {:induction false} FamilySize(stem: Stem, size: nat, n: nat)
    requires stem.Valid() && stem.at <= 2 && size < 8 && n <= VALUES
    ensures |Family(stem, size, n)| == n
  {
    hide Stem.Hashed;
    if n > 0 {
      FamilySize(stem, size, n - 1);
      var last := stem.Hashed(n - 1, size);
      forall v | 0 <= v < n - 1 ensures stem.Hashed(v, size) != last {
        if stem.Hashed(v, size) == last { stem.HashedOneToOne(v, n - 1, size); }
      }
      assert Family(stem, size, n) == Family(stem, size, n - 1) + {last};
    }
  }

  lemma SubsetIsSmaller<T>(a: set<T>, b: set<T>)
    requires a <= b
    ensures |a| <= |b|
  {
    assert b == a + (b - a);
  }

  /** A directory with fewer than 65536 short names never exhausts the search. */
  lemma FewNamesEnd(dir: seq<Record>, stem: Stem, size: nat)
    requires stem.Valid() && stem.at <= 2 && size < 8 && |NamesIn(dir)| < VALUES
    ensures !AllHashedTaken(dir, stem, size)
  {
    hide Stem.Hashed;
    if AllHashedTaken(dir, stem, size) {
      FamilySize(stem, size, VALUES);
      SubsetIsSmaller(Family(stem, size, VALUES), NamesIn(dir));
    }
  }
}
