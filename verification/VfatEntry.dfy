/** Entering a name in a vfat directory: the alias, the slots of the long name,
    their place in the directory, and the way back. */
module VfatEntry {
  import opened Sequences
  import opened FatFormat
  import FatChain
  import opened FatTable
  import opened LongName
  import opened ShortName
  import opened ShortRead
  import opened DirSlots
  import opened DirGrowth

  const ATTR_DIR: Byte := 16
  const ATTR_ARCH: Byte := 32
  const LOWER_BASE: Byte := 8
  const LOWER_EXT: Byte := 16
  /** The bytes of a record behind name, attributes and case. */
  const REST := 19

  /** `Searching` is the search for an alias that does not end. */
  datatype Outcome = Entered | BadInput | Exists | Searching | Full | Failed

  // ----- names -----

  /** control characters and * ? < > | " : / \ */
  predicate BadChar(u: Unit) {
    u < 32 || u in {42, 63, 60, 62, 124, 34, 58, 47, 92}
  }

  ghost predicate BadName(name: seq<Unit>)
    requires name != []
  {
    || (exists k :: 0 <= k < |name| && (name[k] < 32 || name[k] in {42, 63, 60, 62, 124, 34, 58, 47, 92}))
    || name[|name| - 1] == 32
  }

  /** vfat_is_used_badchars */
  method CheckName(name: seq<Unit>) returns (bad: bool)
    requires name != []
    ensures bad <==> BadName(name)
  {
    for i := 0 to |name|
      invariant forall k :: 0 <= k < i ==> !BadChar(name[k])
    {
      if BadChar(name[i]) { return true; }
    }
    bad := name[|name| - 1] == BLANK;
  }

  // ----- the records of one entry -----

  function CaseBits(lowerBase: bool, lowerExt: bool): (r: Byte)
    ensures ((r / 8) % 2 == 1 <==> lowerBase) && ((r / 16) % 2 == 1 <==> lowerExt) && r % 8 == 0 && r < 32
  {
    (if lowerBase then LOWER_BASE else 0) + (if lowerExt then LOWER_EXT else 0)
  }

  /** The 8.3 record of an alias. */
  function ShortRecord(alias: seq<Byte>, isDir: bool, lower: Byte, rest: seq<Byte>): (r: Record)
    requires Usable(alias) && |rest| == REST
    ensures IsShort(r) && r[..NAME] == alias && r[11] == (if isDir then 16 else 32) && r[12] == lower && r[13..] == rest
  {
    alias + [if isDir then ATTR_DIR else ATTR_ARCH] + [lower] + rest
  }

  /** The records of one entry: slots of a long name, if any, and the 8.3 record. */
  ghost predicate IsEntry(slots: seq<Record>, alias: seq<Byte>) {
    && slots != [] && IsShort(slots[|slots| - 1]) && slots[|slots| - 1][..NAME] == alias
    && forall k :: 0 <= k < |slots| - 1 ==> Attr(slots[k]) == ATTR_EXT
  }

  /** Records that spell a name and carry its alias. */
  ghost predicate Spells(recs: seq<Record>, pos: nat, name: seq<Unit>, alias: seq<Byte>, n: nat) {
    && |alias| == NAME && pos + n < |recs| && IsShort(recs[pos + n]) && recs[pos + n][..NAME] == alias
    && (n > 0 ==> n == |Padded(name)| / PER_SLOT && HoldsName(recs, pos, Padded(name), Checksum(alias)))
  }

  /** The rest of an 8.3 record: attributes, case, and what is stored behind. */
  ghost predicate IsRecordOf(r: Record, isDir: bool, lower: Byte, rest: seq<Byte>) {
    r[11] == (if isDir then 16 else 32) && r[12] == lower && r[13..] == rest
  }

  /** vfat_build_slots behind the choice of the alias. */
  method BuildEntry(name: seq<Unit>, alias: seq<Byte>, plain: bool, isDir: bool, lower: Byte, rest: seq<Byte>)
    returns (slots: seq<Record>)
    requires 0 < |name| <= 255 && Usable(alias) && |rest| == REST
    ensures 1 <= |slots| <= MAX_RECORDS && IsEntry(slots, alias) && (plain <==> |slots| == 1)
    ensures Spells(slots, 0, name, alias, |slots| - 1)
    ensures IsRecordOf(slots[|slots| - 1], isDir, lower, rest)
  {
    hide ShortRecord, Checksum, NthRecord, Padded;
    slots := [];
    if !plain {
      slots := BuildSlots(name, alias);
      SlotsAreLong(name, Checksum(alias), slots);
    }
    slots := slots + [ShortRecord(alias, isDir, lower, rest)];
  }

  lemma SlotsAreLong(name: seq<Unit>, sum: Byte, slots: seq<Record>)
    requires 0 < |name| <= 255 && |slots| == |Padded(name)| / PER_SLOT
    requires forall k :: 0 <= k < |slots| ==> slots[k] == NthRecord(Padded(name), sum, k)
    ensures 1 <= |slots| && forall k :: 0 <= k < |slots| ==> Attr(slots[k]) == ATTR_EXT
  {
    hide NthRecord, IsLast, Number, Padded;
    forall k | 0 <= k < |slots| ensures Attr(slots[k]) == ATTR_EXT {
      NthReadsBack(Padded(name), sum, k);
    }
  }

  // ----- in the directory -----

  /** Exactly the alias is new among the short names. */
  ghost predicate OneMore(before: seq<Record>, recs: seq<Record>, alias: seq<Byte>) {
    forall x :: Taken(recs, x) <==> Taken(before, x) || x == alias
  }

  lemma EntryIsOneMore(before: seq<Record>, recs: seq<Record>, pos: nat, slots: seq<Record>, alias: seq<Byte>)
    requires Added(before, recs, pos, slots) && IsEntry(slots, alias)
    ensures OneMore(before, recs, alias)
  {
    assert recs[pos + |slots| - 1] == slots[|slots| - 1];
    forall x ensures Taken(recs, x) <==> Taken(before, x) || x == alias {
      if Taken(before, x) {
        var k :| 0 <= k < |before| && IsShort(before[k]) && before[k][..NAME] == x;
        assert recs[k] == before[k];
      }
      if Taken(recs, x) {
        var k :| 0 <= k < |recs| && IsShort(recs[k]) && recs[k][..NAME] == x;
        assert k < |before| || pos <= k < pos + |slots|;
        if pos <= k < pos + |slots| { assert recs[k] == slots[k - pos]; }
      }
    }
  }

  lemma EntryIsSpelled(before: seq<Record>, recs: seq<Record>, pos: nat, slots: seq<Record>, name: seq<Unit>,
                       alias: seq<Byte>)
    requires Added(before, recs, pos, slots) && slots != [] && Spells(slots, 0, name, alias, |slots| - 1)
    ensures Spells(recs, pos, name, alias, |slots| - 1)
  {
    hide NthRecord, Checksum, Padded, IsShort;
    var n := |slots| - 1;
    assert recs[pos + n] == slots[n];
    if n > 0 {
      forall k | pos <= k < pos + n ensures recs[k] == NthRecord(Padded(name), Checksum(alias), k - pos) {
        assert recs[k] == slots[k - pos];
      }
    }
  }

  /** The 8.3 record of an entry holds the name if it is stored in nothing else. */
  lemma EntryHolds(before: seq<Record>, recs: seq<Record>, pos: nat, slots: seq<Record>, cs: Charset, name: seq<Unit>,
                   options: Options, size: nat, ext: int, s: ShortName.Result, isDir: bool, rest: seq<Byte>)
    requires Added(before, recs, pos, slots) && slots != [] && Split(name, size, ext) && s.Alias?
    requires IsEntry(slots, s.name) && (s.plain <==> |slots| == 1)
    requires IsRecordOf(slots[|slots| - 1], isDir, CaseBits(s.lowerBase, s.lowerExt), rest)
    requires if OwnForm(cs, name, size, ext)
             then CaseNoted(cs, name[..size], Tail(name, ext), options.win95, s.plain, s.lowerBase, s.lowerExt)
             else !s.plain && !s.lowerBase && !s.lowerExt
    requires OwnForm(cs, name, size, ext) ==>
               && Formable(BaseOf(cs, name, size), ExtOf(cs, name, ext))
               && s.name == Form(BaseOf(cs, name, size), ExtOf(cs, name, ext))
    ensures var n := |slots| - 1;
            && pos + n < |recs|
            && (n == 0 <==> OwnForm(cs, name, size, ext)
                            && OneRecord(cs, name[..size], Tail(name, ext), options.win95))
            && (n == 0 ==> HoldsShort(recs[pos], cs, name, options.win95, size, ext))
            && IsRecordOf(recs[pos + n], isDir, recs[pos + n][12], rest)
  {
    hide Split, OwnForm, OneRecord, BaseOf, ExtOf, Form, Formable, AllLower, HasLetter, IsShort, AllFree, ZeroRecord;
    assert recs[pos + |slots| - 1] == slots[|slots| - 1];
  }

  /** vfat_add_entry on a name in UTF-16.  The directory then has one more short
      name, which it did not have, and the name itself, in records that were free
      or new; otherwise no record in use has changed. */
  method AddEntry(file: DirFile, name: seq<Unit>, isDir: bool, rest: seq<Byte>, cs: Charset, options: Options,
                  jiffies: nat, root: bool, garbage: seq<Record>, faults: Faults, fill: bool, memory: bool)
    returns (r: Outcome, pos: nat, n: nat, ghost alias: seq<Byte>, ghost size: nat, ghost ext: int, ghost need: nat)
    requires file.Valid() && 0 < |name| <= 255 && cs.Valid() && |rest| == REST
    requires |garbage| == 2 * file.dir.perCluster
    modifies file.dir`recs, file.inode, file.inode.fat`bytes, file.inode.fat`tab, file.inode.fat`copies,
             file.inode.fat`prevFree, file.inode.fat`freeClusters, file.inode.fat`freeValid
    ensures r == Entered || file.inode.fat.Faultless() ==> file.Valid()
    ensures BadName(name) ==> r == BadInput
    ensures r == Entered ==>
              && !Taken(old(file.dir.recs), alias) && OneMore(old(file.dir.recs), file.dir.recs, alias)
              && Spells(file.dir.recs, pos, name, alias, n)
    ensures r == Entered ==>
              && Split(name, size, ext)
              && (n == 0 <==> OwnForm(cs, name, size, ext)
                              && OneRecord(cs, name[..size], Tail(name, ext), options.win95))
              && (n == 0 ==> HoldsShort(file.dir.recs[pos], cs, name, options.win95, size, ext))
              && IsRecordOf(file.dir.recs[pos + n], isDir, file.dir.recs[pos + n][12], rest)
    ensures r == Entered ==>
              Lengthened(old(file.inode.fat.tab), file.inode.fat.tab, old(file.inode.chain), file.inode.chain)
    ensures r != Entered ==> InUseKept(old(file.dir.recs), file.dir.recs)
    ensures r == Exists <==> !BadName(name) && HasName(old(file.dir.recs), cs, name)
    ensures need > 0 ==> NoRoom(old(file.dir.recs), n + 1, |old(file.dir.recs)|)
    ensures (&& file.inode.fat.Faultless() && old(file.inode.fat.Exact()) && faults.longSync && faults.shortSync && fill
             && (root || old(file.inode.start) != 0) && |old(file.dir.recs)| < DIR_LIMIT - 1
             && |old(file.inode.chain)| <= file.inode.limit + 1 && r !in {BadInput, Exists, Searching}) ==>
              && (r == Entered <==> need <= FatChain.CountFree(old(file.inode.fat.tab)))
              && (r == Full <==> need > FatChain.CountFree(old(file.inode.fat.tab)))
    ensures r == Searching ==> |NamesIn(old(file.dir.recs))| >= VALUES
  {
    hide *;
    ghost var before := file.dir.recs;
    NothingDone(before);
    pos, n, alias, size, ext, need := 0, 0, [], 0, -1, 0;
    var bad := CheckName(name);
    if bad { return BadInput, pos, n, alias, size, ext, need; }
    var s;
    s, size, ext := CreateShortName(file.dir.recs, name, cs, options, jiffies);
    match s {
      case BadName => return BadInput, pos, n, alias, size, ext, need;
      case NameTaken => return Exists, pos, n, alias, size, ext, need;
      case Endless => return Searching, pos, n, alias, size, ext, need;
      case Alias(a, plain, lowerBase, lowerExt) =>
        alias := a;
        var slots := BuildEntry(name, a, plain, isDir, CaseBits(lowerBase, lowerExt), rest);
        var exit, last;
        exit, pos, last, need := file.AddEntries(slots, root, garbage, faults, fill, memory);
        n := |slots| - 1;
        match exit {
          case NoSpace => r := Full;
          case IoFailed => r := Failed;
          case Done =>
            EntryIsOneMore(before, file.dir.recs, pos, slots, a);
            EntryIsSpelled(before, file.dir.recs, pos, slots, name, a);
            EntryHolds(before, file.dir.recs, pos, slots, cs, name, options, size, ext, s, isDir, rest);
            r := Entered;
        }
    }
  }

  /** A name that was entered is read back from the directory: a long name by its
      slots, any other from its 8.3 record, if the mount shows it as it creates it. */
  method AddThenRead(file: DirFile, name: seq<Unit>, isDir: bool, rest: seq<Byte>, cs: Charset, options: Options,
                     display: Display, jiffies: nat, root: bool, garbage: seq<Record>, faults: Faults, fill: bool,
                     memory: bool, unicode: array<Unit>)
    returns (r: Outcome, found: Parsed, shown: seq<Unit>, ghost alias: seq<Byte>, n: nat)
    requires file.Valid() && 0 < |name| <= 255 && cs.Valid() && |rest| == REST
    requires |garbage| == 2 * file.dir.perCluster && MAX_SLOTS * PER_SLOT < unicode.Length
    modifies file.dir`recs, file.inode, file.inode.fat`bytes, file.inode.fat`tab, file.inode.fat`copies,
             file.inode.fat`prevFree, file.inode.fat`freeClusters, file.inode.fat`freeValid, unicode
    ensures r == Entered ==> !Taken(old(file.dir.recs), alias) && Taken(file.dir.recs, alias)
    ensures r == Entered && n > 0 ==> found == Ok && unicode[..|name|] == name && unicode[|name|] == 0
    ensures r == Entered && n == 0 && cs.Ascii() && Matching(options, display) ==> shown == name
  {
    hide *;
    var pos;
    ghost var size, ext, need;
    found, shown := Invalid, [];
    r, pos, n, alias, size, ext, need :=
      AddEntry(file, name, isDir, rest, cs, options, jiffies, root, garbage, faults, fill, memory);
    if r == Entered {
      AliasIsTaken(file.dir.recs, pos, name, alias, n);
      if n > 0 {
        SpelledIsHeld(file.dir.recs, pos, name, alias, n);
        var at, slots;
        found, at, slots := ParseWritten(file.dir.recs, pos, name, unicode);
      } else {
        GoodChars(name);
        shown := ReadBack(cs, file.dir.recs[pos], display, name, options, size, ext);
      }
    }
  }

  lemma GoodChars(name: seq<Unit>)
    requires name != []
    ensures !BadName(name) ==> forall k :: 0 <= k < |name| ==> 32 <= name[k]
  {
    assert forall k :: 0 <= k < |name| && !BadChar(name[k]) ==> 32 <= name[k];
  }

  lemma AliasIsTaken(recs: seq<Record>, pos: nat, name: seq<Unit>, alias: seq<Byte>, n: nat)
    requires Spells(recs, pos, name, alias, n)
    ensures Taken(recs, alias) && pos + n < |recs|
  {
    hide HoldsName, IsShort;
    assert IsShort(recs[pos + n]);
  }

  lemma SpelledIsHeld(recs: seq<Record>, pos: nat, name: seq<Unit>, alias: seq<Byte>, n: nat)
    requires Spells(recs, pos, name, alias, n) && n > 0
    ensures n == |Padded(name)| / PER_SLOT && pos + n < |recs| && IsShort(recs[pos + n])
    ensures HoldsName(recs, pos, Padded(name), Checksum(recs[pos + n][..11]))
  {
    hide HoldsName, IsShort;
  }
}
