/** Reading an 8.3 record as a name, and the way back of a name that is stored in
    nothing else. */
module ShortRead {
  import opened Sequences
  import opened FatFormat
  import opened LongName
  import opened ShortName

  const QUESTION: Unit := 63

  /** How the mount shows short names: in lower case, as they are, or in the case
      that was noted. */
  datatype Display = Lower | Win95 | WinNt {
    predicate Lowers(noted: bool) { Lower? || (WinNt? && noted) }
  }

  // ----- characters -----

  /** fat_short2uni */
  function Widened(cs: Charset, buf: seq<Byte>): (nat, Unit) {
    if cs.widen(buf).Some? then cs.widen(buf).value else (1, QUESTION)
  }

  /** fat_short2lower_uni */
  function WidenedLower(cs: Charset, buf: seq<Byte>): (nat, Unit)
    requires buf != []
  {
    if cs.widen(buf).None? then (1, QUESTION)
    else if cs.widen(buf).value.0 <= 1 then Widened(cs, [if cs.lower(buf[0]) == 0 then buf[0] else cs.lower(buf[0])])
    else cs.widen(buf).value
  }

  /** fat_shortname2uni */
  function ShownChar(cs: Charset, buf: seq<Byte>, lower: bool): (r: (nat, Unit))
    requires buf != []
  {
    if lower then WidenedLower(cs, buf) else Widened(cs, buf)
  }

  /** An ASCII character, in lower case where it is asked for. */
  function Shown(b: Byte, lower: bool): Unit {
    if lower && 65 <= b <= 90 then b + 32 else b
  }

  function AllShown(x: seq<Byte>, lower: bool): (r: seq<Unit>)
    ensures |r| == |x| && forall k :: 0 <= k < |x| ==> r[k] == if lower && 65 <= x[k] <= 90 then x[k] + 32 else x[k]
  {
    seq(|x|, k requires 0 <= k < |x| => Shown(x[k], lower))
  }

  lemma AsciiIsShown(cs: Charset, buf: seq<Byte>, lower: bool)
    requires cs.Ascii() && buf != [] && 32 <= buf[0] < 127
    ensures var r := ShownChar(cs, buf, lower); r.0 == 1 && r.1 == Shown(buf[0], lower)
  {
    var c := if cs.lower(buf[0]) == 0 then buf[0] else cs.lower(buf[0]);
    assert lower ==> cs.widen([c]).Some?;
  }

  // ----- fat_parse_short -----

  /** A field that holds ASCII without blanks, and blanks behind it. */
  ghost predicate FieldIs(field: seq<Byte>, x: seq<Byte>) {
    && |x| <= |field|
    && (forall k :: 0 <= k < |x| ==> field[k] == x[k] && 33 <= x[k] < 127)
    && forall k :: |x| <= k < |field| ==> field[k] == 32
  }

  /** The characters of a field from byte i on, up to a zero, and whether each one
      counts as the end of the name: all but blanks do. */
  function Chars(cs: Charset, field: seq<Byte>, i: nat, lower: bool): (r: seq<(Unit, bool)>)
    requires i <= |field|
    decreases |field| - i
  {
    if i == |field| || field[i] == 0 then []
    else
      var c := ShownChar(cs, field[i..], lower);
      var width := if c.0 <= 1 then 1 else Min(c.0, |field| - i);
      [(c.1, c.0 > 1 || field[i] != 32)] + Chars(cs, field, i + width, lower)
  }

  lemma CharsNext(cs: Charset, field: seq<Byte>, i: nat, lower: bool)
    requires i < |field| && field[i] != 0
    ensures var c := ShownChar(cs, field[i..], lower);
            var width := if c.0 <= 1 then 1 else Min(c.0, |field| - i);
            Chars(cs, field, i, lower) == [(c.1, c.0 > 1 || field[i] != 32)] + Chars(cs, field, i + width, lower)
  {
  }

  lemma CharsEnd(cs: Charset, field: seq<Byte>, i: nat, lower: bool)
    requires i <= |field| && (i < |field| ==> field[i] == 0)
    ensures Chars(cs, field, i, lower) == []
  {
  }

  /** The characters up to the last one that counts. */
  function Trimmed(chars: seq<(Unit, bool)>): (r: seq<Unit>)
    ensures |r| <= |chars|
  {
    if chars == [] then []
    else if chars[|chars| - 1].1 then UnitsOf(chars)
    else Trimmed(chars[..|chars| - 1])
  }

  function UnitsOf(chars: seq<(Unit, bool)>): (r: seq<Unit>)
    ensures |r| == |chars| && forall k :: 0 <= k < |r| ==> r[k] == chars[k].0
  {
    seq(|chars|, k requires 0 <= k < |chars| => chars[k].0)
  }

  lemma TrimmedNext(chars: seq<(Unit, bool)>, c: (Unit, bool))
    ensures Trimmed(chars + [c]) == if c.1 then UnitsOf(chars) + [c.0] else Trimmed(chars)
    ensures UnitsOf(chars + [c]) == UnitsOf(chars) + [c.0]
  {
    assert (chars + [c])[..|chars|] == chars;
  }

  /** The loop over the base or the extension: characters up to the last one that
      is not a blank. */
  method ParseField(cs: Charset, field: seq<Byte>, lower: bool) returns (units: seq<Unit>)
    requires cs.Valid()
    ensures units == Trimmed(Chars(cs, field, 0, lower))
  {
    hide ShownChar, UnitsOf, Trimmed, Chars, Charset.Valid;
    ghost var done: seq<(Unit, bool)> := [];
    ghost var all := Chars(cs, field, 0, lower);
    TrimmedNone();
    var i: nat, uni, keep: nat := 0, [], 0;
    while i < |field| && field[i] != 0
      invariant i <= |field| && keep <= |uni| && uni == UnitsOf(done) && uni[..keep] == Trimmed(done)
      invariant done + Chars(cs, field, i, lower) == all
      decreases |field| - i
    {
      var c := field[i];
      var shown := ShownChar(cs, field[i..], lower);
      TrimmedNext(done, (shown.1, shown.0 > 1 || c != 32));
      CharsNext(cs, field, i, lower);
      ghost var rest := Chars(cs, field, i, lower);
      uni := uni + [shown.1];
      if shown.0 <= 1 {
        i := i + 1;
        if c != 32 { keep := |uni|; }
      } else {
        keep := |uni|;
        i := i + Min(shown.0, |field| - i);
      }
      assert rest == [(shown.1, shown.0 > 1 || c != 32)] + Chars(cs, field, i, lower);
      done := done + [(shown.1, shown.0 > 1 || c != 32)];
    }
    CharsEnd(cs, field, i, lower);
    units := uni[..keep];
    assert done == all;
  }

  lemma TrimmedNone()
    ensures Trimmed([]) == [] && UnitsOf([]) == []
  {
  }

  lemma {:induction false} AsciiChars(cs: Charset, field: seq<Byte>, x: seq<Byte>, i: nat, lower: bool)
    requires cs.Ascii() && FieldIs(field, x) && i <= |field|
    ensures var r := Chars(cs, field, i, lower);
            && |r| == |field| - i
            && forall k :: 0 <= k < |r| ==> r[k].0 == Shown(field[i + k], lower) && (r[k].1 <==> i + k < |x|)
    decreases |field| - i
  {
    if i < |field| {
      AsciiIsShown(cs, field[i..], lower);
      AsciiChars(cs, field, x, i + 1, lower);
    }
  }

  lemma {:induction false} TrimmedAt(chars: seq<(Unit, bool)>, n: nat)
    requires n <= |chars| && forall k :: 0 <= k < |chars| ==> (chars[k].1 <==> k < n)
    ensures Trimmed(chars) == UnitsOf(chars[..n])
    decreases |chars|
  {
    if chars != [] && !chars[|chars| - 1].1 {
      var rest := chars[..|chars| - 1];
      TrimmedAt(rest, n);
      assert rest[..n] == chars[..n];
    } else {
      assert chars[..n] == chars;
    }
  }

  /** A field of ASCII is shown character by character, without the blanks. */
  lemma FieldShown(cs: Charset, field: seq<Byte>, x: seq<Byte>, lower: bool)
    requires cs.Ascii() && FieldIs(field, x)
    ensures Trimmed(Chars(cs, field, 0, lower)) == AllShown(x, lower)
  {
    AsciiChars(cs, field, x, 0, lower);
    var r := Chars(cs, field, 0, lower);
    hide Chars, Trimmed, Charset.Ascii;
    TrimmedAt(r, |x|);
    forall k | 0 <= k < |x| ensures UnitsOf(r[..|x|])[k] == AllShown(x, lower)[k] {
      assert r[..|x|][k] == r[k];
    }
  }

  lemma DotIsDot(cs: Charset)
    requires cs.Ascii()
    ensures Widened(cs, [46]).1 == DOT
  {
    var dot: seq<Byte> := [46];
    assert dot[0] == 46;
  }

  /** The name bytes of a record, where 5 stands for 0xe5 in the first place. */
  function Work(de: Record): (r: seq<Byte>)
    ensures |r| == 11 && r[1..] == de[1..11] && r[0] == if de[0] == 5 then 0xe5 else de[0]
  {
    if de[0] == 5 then de[0 := DELETED][..11] else de[..11]
  }

  /** fat_parse_short on a vfat mount, up to the conversion of the result. */
  method ParseShort(cs: Charset, de: Record, display: Display) returns (name: seq<Unit>)
    requires cs.Valid()
    ensures var base := Trimmed(Chars(cs, Work(de)[..8], 0, display.Lowers((de[12] / 8) % 2 == 1)));
            var ext := Trimmed(Chars(cs, Work(de)[8..], 0, display.Lowers((de[12] / 16) % 2 == 1)));
            name == base + if ext == [] then [] else [Widened(cs, [46]).1] + ext
  {
    hide Trimmed, Chars, Display.Lowers, Charset.Valid, Widened;
    var work := Work(de);
    name := ParseField(cs, work[..8], display.Lowers((de[12] / 8) % 2 == 1));
    var dot := Widened(cs, [46]).1;
    var tail := ParseField(cs, work[8..], display.Lowers((de[12] / 16) % 2 == 1));
    if tail != [] { name := name + [dot] + tail; }
  }

  /** A record of ASCII is its base and its extension with a dot between. */
  lemma AsciiRecord(cs: Charset, de: Record, display: Display, base: seq<Byte>, ext: seq<Byte>)
    requires cs.Ascii() && de[0] != 5 && FieldIs(de[..8], base) && FieldIs(de[8..11], ext)
    ensures var b := Trimmed(Chars(cs, Work(de)[..8], 0, display.Lowers((de[12] / 8) % 2 == 1)));
            var e := Trimmed(Chars(cs, Work(de)[8..], 0, display.Lowers((de[12] / 16) % 2 == 1)));
            && b == AllShown(base, display.Lowers((de[12] / 8) % 2 == 1))
            && e == AllShown(ext, display.Lowers((de[12] / 16) % 2 == 1)) && (e == [] <==> ext == [])
            && Widened(cs, [46]).1 == DOT
  {
    hide FieldIs, Charset.Ascii, Trimmed, Chars, Display.Lowers;
    DotIsDot(cs);
    assert Work(de)[..8] == de[..8] && Work(de)[8..] == de[8..11];
    FieldShown(cs, de[..8], base, display.Lowers((de[12] / 8) % 2 == 1));
    FieldShown(cs, de[8..11], ext, display.Lowers((de[12] / 16) % 2 == 1));
  }

  // ----- the way back -----

  /** The display that goes with the way names are created. */
  predicate Matching(options: Options, display: Display) {
    display.WinNt? || (display.Win95? && options.win95)
  }

  /** Characters that may stand in a name, in one byte of ASCII each. */
  ghost predicate AsciiPart(part: seq<Unit>) {
    forall k :: 0 <= k < |part| ==> 33 <= part[k] < 127
  }

  function UpperOf(u: int): int { if 97 <= u <= 122 then u - 32 else u }

  lemma SimpleIsAscii(cs: Charset, part: seq<Unit>, n: nat)
    requires cs.Ascii() && Stands(cs, part, n) && (AllUpper(cs, part) || AllLower(cs, part))
    requires forall k :: 0 <= k < |part| ==> 32 <= part[k]
    ensures AsciiPart(part)
    ensures forall k :: 0 <= k < |part| ==> Translate(cs, part[k]).bytes == [UpperOf(part[k])]
    ensures forall k :: 0 <= k < |part| ==> (Letter(cs, part[k]) <==> 65 <= UpperOf(part[k]) <= 90)
    ensures forall k :: 0 <= k < |part| ==> (OwnUpper(cs, part[k]) <==> UpperOf(part[k]) == part[k])
  {
    forall k | 0 <= k < |part|
      ensures 33 <= part[k] < 127 && Translate(cs, part[k]).bytes == [UpperOf(part[k])]
      ensures Letter(cs, part[k]) <==> 65 <= UpperOf(part[k]) <= 90
      ensures OwnUpper(cs, part[k]) <==> UpperOf(part[k]) == part[k]
    {
      assert Simple(cs, part[k]);
      OneAscii(cs, part[k]);
    }
  }

  lemma OneAscii(cs: Charset, u: Unit)
    requires cs.Ascii() && Simple(cs, u) && !Skipped(u) && !Replaced(u) && 32 <= u
    ensures 33 <= u < 127 && Translate(cs, u).bytes == [UpperOf(u)]
    ensures Letter(cs, u) <==> 65 <= UpperOf(u) <= 90
    ensures OwnUpper(cs, u) <==> UpperOf(u) == u
  {
    var b := cs.narrow(u)[0];
    assert cs.narrow(u) == [b];
    assert u == b;
  }

  lemma {:induction false} JoinedSingles(chars: seq<seq<Byte>>, x: seq<int>)
    requires |x| == |chars| && forall k :: 0 <= k < |chars| ==> |chars[k]| == 1 && chars[k][0] == x[k]
    ensures |Joined(chars)| == |x| && forall k :: 0 <= k < |x| ==> Joined(chars)[k] == x[k]
    decreases |chars|
  {
    if chars != [] {
      JoinedSingles(chars[..|chars| - 1], x[..|x| - 1]);
    }
  }

  /** The bytes of a part of ASCII are its upper case. */
  lemma PartBytes(cs: Charset, part: seq<Unit>, n: nat)
    requires cs.Ascii() && Stands(cs, part, n) && (AllUpper(cs, part) || AllLower(cs, part))
    requires forall k :: 0 <= k < |part| ==> 32 <= part[k]
    ensures var b := Joined(BytesOf(Glyphs(cs, part)));
            && |b| == |part| && AsciiPart(part)
            && forall k :: 0 <= k < |part| ==> b[k] == UpperOf(part[k]) && 33 <= b[k] < 127
  {
    hide AllUpper, AllLower, Translate, Charset.Ascii, Fitting;
    SimpleIsAscii(cs, part, n);
    JoinedSingles(BytesOf(Glyphs(cs, part)), seq(|part|, k requires 0 <= k < |part| => UpperOf(part[k])));
  }

  /** Shown as noted, a part comes back; in lower case only if it has no upper case
      letter, in upper case only if it has no lower case letter. */
  lemma PartShown(cs: Charset, part: seq<Unit>, n: nat, lower: bool)
    requires cs.Ascii() && Stands(cs, part, n) && (AllUpper(cs, part) || AllLower(cs, part))
    requires forall k :: 0 <= k < |part| ==> 32 <= part[k]
    ensures AllShown(Joined(BytesOf(Glyphs(cs, part))), lower) == part <==>
            if lower then AllLower(cs, part) else AllUpper(cs, part)
  {
    hide Joined, Glyphs, BytesOf, Charset.Ascii, Translate, Fitting, Letter, OwnUpper, Simple, Stands, AllShown,
      UpperOf;
    PartBytes(cs, part, n);
    SimpleIsAscii(cs, part, n);
    BytesShown(part, Joined(BytesOf(Glyphs(cs, part))), lower);
  }

  lemma BytesShown(part: seq<Unit>, b: seq<Byte>, lower: bool)
    requires |b| == |part| && forall k :: 0 <= k < |part| ==> b[k] == UpperOf(part[k])
    ensures AllShown(b, lower) == part <==>
            forall k :: 0 <= k < |part| && 65 <= UpperOf(part[k]) <= 90 ==> (UpperOf(part[k]) == part[k] <==> !lower)
  {
    var r := AllShown(b, lower);
    hide AllShown;
    forall k | 0 <= k < |part|
      ensures r[k] == part[k] <==> (65 <= UpperOf(part[k]) <= 90 ==> (UpperOf(part[k]) == part[k] <==> !lower))
    {
      assert r[k] == if lower && 65 <= b[k] <= 90 then b[k] + 32 else b[k];
    }
  }

  /** What is shown of the base and the extension of a name. */
  ghost function Together(b: seq<Byte>, e: seq<Byte>, lowerBase: bool, lowerExt: bool): seq<Unit> {
    AllShown(b, lowerBase) + if e == [] then [] else [DOT] + AllShown(e, lowerExt)
  }

  /** A name is its base and its extension. */
  lemma NameOfParts(name: seq<Unit>, size: nat, ext: int, x: seq<Unit>, y: seq<Unit>)
    requires Split(name, size, ext) && |x| == size && |y| == |Tail(name, ext)|
    ensures name == x + (if y == [] then [] else [DOT] + y) <==> x == name[..size] && y == Tail(name, ext)
  {
    var whole := x + if y == [] then [] else [DOT] + y;
    if ext == -1 {
      assert name[..size] == name && whole == x;
    } else {
      assert name == name[..size] + [DOT] + name[ext..];
      assert whole == x + [DOT] + y;
      if whole == name {
        assert x == whole[..size] && y == whole[ext..];
      }
    }
  }

  lemma PartsAreAscii(cs: Charset, name: seq<Unit>, size: nat, ext: int)
    requires cs.Ascii() && cs.Valid() && Split(name, size, ext) && OwnForm(cs, name, size, ext)
    requires forall k :: 0 <= k < |name| ==> 32 <= name[k]
    requires OneRecord(cs, name[..size], Tail(name, ext), false)
    ensures var b, e := BaseOf(cs, name, size), ExtOf(cs, name, ext);
            && |b| == size && |e| == |Tail(name, ext)|
            && (forall k :: 0 <= k < |b| ==> 33 <= b[k] < 127) && (forall k :: 0 <= k < |e| ==> 33 <= e[k] < 127)
  {
    hide Charset.Ascii, Charset.Valid, Stands, AllUpper, AllLower, Joined, Glyphs, BytesOf;
    PartBytes(cs, name[..size], 8);
    if ext != -1 { PartBytes(cs, name[ext..], 3); }
  }

  /** Can a name of one 8.3 record be shown as it is?  Always in the case that was
      noted or that it was created in; in lower case exactly if it has no letter
      in upper case. */
  lemma ShownIff(cs: Charset, name: seq<Unit>, size: nat, ext: int, lowerBase: bool, lowerExt: bool)
    requires cs.Ascii() && cs.Valid() && Split(name, size, ext) && OwnForm(cs, name, size, ext)
    requires forall k :: 0 <= k < |name| ==> 32 <= name[k]
    requires OneRecord(cs, name[..size], Tail(name, ext), false)
    ensures Together(BaseOf(cs, name, size), ExtOf(cs, name, ext), lowerBase, lowerExt) == name <==>
            && (if lowerBase then AllLower(cs, name[..size]) else AllUpper(cs, name[..size]))
            && (if lowerExt then AllLower(cs, Tail(name, ext)) else AllUpper(cs, Tail(name, ext)))
  {
    hide Charset.Ascii, Charset.Valid, Stands, Joined, Glyphs, BytesOf, Split;
    PartsAreAscii(cs, name, size, ext);
    var b, e := BaseOf(cs, name, size), ExtOf(cs, name, ext);
    PartShown(cs, name[..size], 8, lowerBase);
    if ext != -1 { PartShown(cs, name[ext..], 3, lowerExt); }
    NameOfParts(name, size, ext, AllShown(b, lowerBase), AllShown(e, lowerExt));
  }

  /** An 8.3 record that holds a name of its own form, with its case. */
  ghost predicate HoldsShort(de: Record, cs: Charset, name: seq<Unit>, win95: bool, size: nat, ext: int) {
    && Split(name, size, ext) && OwnForm(cs, name, size, ext)
    && Formable(BaseOf(cs, name, size), ExtOf(cs, name, ext))
    && de[..NAME] == Form(BaseOf(cs, name, size), ExtOf(cs, name, ext))
    && CaseNoted(cs, name[..size], Tail(name, ext), win95, true, (de[12] / 8) % 2 == 1, (de[12] / 16) % 2 == 1)
  }

  lemma FormFields(b: seq<Byte>, e: seq<Byte>)
    requires Formable(b, e)
    requires (forall k :: 0 <= k < |b| ==> 33 <= b[k] < 127) && (forall k :: 0 <= k < |e| ==> 33 <= e[k] < 127)
    ensures var f := Form(b, e); f[0] != 5 && FieldIs(f[..8], b) && FieldIs(f[8..], e)
  {
  }

  /** Read back as it was created, such a record gives the name. */
  method ReadBack(cs: Charset, de: Record, display: Display, ghost name: seq<Unit>, ghost options: Options,
                  ghost size: nat, ghost ext: int)
    returns (shown: seq<Unit>)
    requires cs.Valid()
    ensures (&& cs.Ascii() && HoldsShort(de, cs, name, options.win95, size, ext)
             && forall k :: 0 <= k < |name| ==> 32 <= name[k]) ==>
              && (Matching(options, display) ==> shown == name)
              && (display.Lower? && options.win95 ==>
                    (shown == name <==> !HasLetter(cs, name[..size]) && !HasLetter(cs, Tail(name, ext))))
  {
    hide Trimmed, Chars, HoldsShort, BaseOf, ExtOf, Charset.Ascii, HasLetter, Matching, FieldIs, Split, OwnForm;
    shown := ParseShort(cs, de, display);
    if && cs.Ascii() && HoldsShort(de, cs, name, options.win95, size, ext)
       && (forall k :: 0 <= k < |name| ==> 32 <= name[k]) {
      HeldIsSplit(de, cs, name, options.win95, size, ext);
      BackAsNoted(cs, de, display, name, options, size, ext);
      AsciiRecord(cs, de, display, BaseOf(cs, name, size), ExtOf(cs, name, ext));
    }
  }

  lemma HeldIsSplit(de: Record, cs: Charset, name: seq<Unit>, win95: bool, size: nat, ext: int)
    requires HoldsShort(de, cs, name, win95, size, ext)
    ensures Split(name, size, ext)
  {
  }

  lemma BackAsNoted(cs: Charset, de: Record, display: Display, name: seq<Unit>, options: Options, size: nat, ext: int)
    requires cs.Valid() && cs.Ascii() && HoldsShort(de, cs, name, options.win95, size, ext)
    requires forall k :: 0 <= k < |name| ==> 32 <= name[k]
    ensures var b, e := BaseOf(cs, name, size), ExtOf(cs, name, ext);
            var lb, le := display.Lowers((de[12] / 8) % 2 == 1), display.Lowers((de[12] / 16) % 2 == 1);
            && de[0] != 5 && FieldIs(de[..8], b) && FieldIs(de[8..11], e)
            && (Matching(options, display) ==> Together(b, e, lb, le) == name)
            && (display.Lower? && options.win95 ==>
                  (Together(b, e, lb, le) == name <==> !HasLetter(cs, name[..size]) && !HasLetter(cs, Tail(name, ext))))
  {
    hide Charset.Ascii, Charset.Valid, Stands, Joined, Glyphs, BytesOf, Split, OwnForm, FieldIs, Form, Together,
      AllUpper, AllLower, HasLetter, BaseOf, ExtOf;
    var b, e := BaseOf(cs, name, size), ExtOf(cs, name, ext);
    var lb, le := display.Lowers((de[12] / 8) % 2 == 1), display.Lowers((de[12] / 16) % 2 == 1);
    PartsAreAscii(cs, name, size, ext);
    FormFields(b, e);
    assert de[..8] == Form(b, e)[..8] && de[8..11] == Form(b, e)[8..] && de[0] == Form(b, e)[0];
    ShownIff(cs, name, size, ext, lb, le);
    CaseChoice(cs, name[..size]);
    CaseChoice(cs, Tail(name, ext));
  }

  lemma CaseChoice(cs: Charset, part: seq<Unit>)
    ensures AllLower(cs, part) && !HasLetter(cs, part) ==> AllUpper(cs, part)
    ensures AllUpper(cs, part) && AllLower(cs, part) ==> !HasLetter(cs, part)
    ensures AllUpper(cs, part) && !HasLetter(cs, part) ==> AllLower(cs, part)
  {
    hide Simple, Letter, OwnUpper;
  }
}
