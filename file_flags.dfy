/** `operator<<(FileFlags)`: the text for an `open(2)` flags word. One
    access-mode word chosen by `flags & O_ACCMODE`, then `|NAME` for every
    table entry the flags meet. The platform's flag values are parameters;
    the x86-64 Linux values are given below for the table fm.cc writes. */
module FileFlags {
  import opened Common
  import opened FlagTable

  /** The values of `O_ACCMODE`, `O_RDONLY`, `O_WRONLY` and `O_RDWR`. */
  datatype AccessModes = AccessModes(accMode: bv32, rdOnly: bv32, wrOnly: bv32, rdWr: bv32)

  /** The word the `switch (flags & O_ACCMODE)` prints, cases tried in the
      order they are written. */
  function AccessWord(modes: AccessModes, mode: bv32): string
  {
    if mode == modes.rdWr then "O_RDWR"
    else if mode == modes.rdOnly then "O_RDONLY"
    else if mode == modes.wrOnly then "O_WRONLY"
    else "??ACCESS??"
  }

  /** `|NAME` for every name, in order. */
  function Piped(names: seq<string>): string
  {
    if names == [] then "" else Piped(names[..|names| - 1]) + "|" + names[|names| - 1]
  }

  lemma PipedSnoc(names: seq<string>, name: string)
    ensures Piped(names + [name]) == Piped(names) + "|" + name
  {
    assert (names + [name])[..|names|] == names;
  }

  /** The bits of the C `int` flags as the unsigned table words see them. */
  function Widen(flags: bv32): bv64 { flags as bv64 }

  /** The text `operator<<(FileFlags)` writes. */
  function FlagsText(modes: AccessModes, table: seq<Entry>, flags: bv32): string
  {
    AccessWord(modes, flags & modes.accMode) + Piped(Selected(table, Widen(flags)))
  }

  lemma {:induction false} PipedIsJoinTail(first: string, names: seq<string>)
    ensures first + Piped(names) == Join([first] + names)
  {
    if names != [] {
      var n := |names| - 1;
      PipedIsJoinTail(first, names[..n]);
      assert [first] + names == ([first] + names[..n]) + [names[n]];
      JoinSnoc([first] + names[..n], names[n]);
    }
  }

  /** The flags text is the `|`-join of the access word followed by the
      names of the matching entries, in table order. */
  lemma FlagsTextIsJoin(modes: AccessModes, table: seq<Entry>, flags: bv32)
    ensures FlagsText(modes, table, flags)
         == Join([AccessWord(modes, flags & modes.accMode)] + Selected(table, Widen(flags)))
  {
    PipedIsJoinTail(AccessWord(modes, flags & modes.accMode), Selected(table, Widen(flags)));
  }

  /** The access word is one of the four the switch prints; which one, for
      which bits, is `AccessWordMeaning`. */
  lemma AccessWordChoice(modes: AccessModes, mode: bv32)
    ensures var w := AccessWord(modes, mode);
      w == "O_RDWR" || w == "O_RDONLY" || w == "O_WRONLY" || w == "??ACCESS??"
  {
  }

  /** The text begins with the access word and never with `|`; whatever
      follows the word is empty or starts with `|`. */
  lemma FlagsTextShape(modes: AccessModes, table: seq<Entry>, flags: bv32)
    ensures var w := AccessWord(modes, flags & modes.accMode);
      var s := FlagsText(modes, table, flags);
      && |w| <= |s| && s[..|w|] == w
      && (|s| > |w| ==> s[|w|] == '|')
      && s[0] != '|'
  {
    AccessWordChoice(modes, flags & modes.accMode);
    WordThenNames(AccessWord(modes, flags & modes.accMode), Selected(table, Widen(flags)));
  }

  lemma WordThenNames(w: string, names: seq<string>)
    requires w == "O_RDWR" || w == "O_RDONLY" || w == "O_WRONLY" || w == "??ACCESS??"
    ensures var s := w + Piped(names);
      && |w| <= |s| && s[..|w|] == w
      && (|s| > |w| ==> s[|w|] == '|')
      && s[0] != '|'
  {
    var p := Piped(names);
    if p != [] {
      PipedStartsWithBar(names);
    }
    var s := w + p;
    assert s[..|w|] == w;
    assert s[0] == w[0];
  }

  lemma {:induction false} PipedStartsWithBar(names: seq<string>)
    requires Piped(names) != []
    ensures Piped(names)[0] == '|'
  {
    var n := |names| - 1;
    if n > 0 {
      PipedStartsWithBar(names[..n]);
    }
  }

  /** The mode values are told apart: a `switch` whose case labels had equal
      values would not compile. */
  predicate DistinctModes(modes: AccessModes)
  {
    modes.rdOnly != modes.wrOnly && modes.rdOnly != modes.rdWr && modes.wrOnly != modes.rdWr
  }

  /** Each access word is printed exactly for its mode, and `??ACCESS??`
      exactly for bits that are none of the three. */
  lemma AccessWordMeaning(modes: AccessModes, mode: bv32)
    requires DistinctModes(modes)
    ensures AccessWord(modes, mode) == "O_RDONLY" <==> mode == modes.rdOnly
    ensures AccessWord(modes, mode) == "O_WRONLY" <==> mode == modes.wrOnly
    ensures AccessWord(modes, mode) == "O_RDWR" <==> mode == modes.rdWr
    ensures AccessWord(modes, mode) == "??ACCESS??" <==>
      mode != modes.rdOnly && mode != modes.wrOnly && mode != modes.rdWr
  {
    var w := AccessWord(modes, mode);
    assert w == "O_RDWR" || w == "O_RDONLY" || w == "O_WRONLY" || w == "??ACCESS??";
  }

  /** The `switch (flags & O_ACCMODE)` of `operator<<(FileFlags)`: the word
      for the access-mode bits of `flags`, each case exactly for its value. */
  method SwitchAccessMode(modes: AccessModes, flags: bv32) returns (s: string)
    ensures s == AccessWord(modes, flags & modes.accMode)
    ensures DistinctModes(modes) ==>
      var mode := flags & modes.accMode;
      && (s == "O_RDONLY" <==> mode == modes.rdOnly)
      && (s == "O_WRONLY" <==> mode == modes.wrOnly)
      && (s == "O_RDWR" <==> mode == modes.rdWr)
      && (s == "??ACCESS??" <==> mode != modes.rdOnly && mode != modes.wrOnly && mode != modes.rdWr)
  {
    var mode := flags & modes.accMode;
    if mode == modes.rdWr {
      s := "O_RDWR";
    } else if mode == modes.rdOnly {
      s := "O_RDONLY";
    } else if mode == modes.wrOnly {
      s := "O_WRONLY";
    } else {
      s := "??ACCESS??";
    }
  }

  /** The walk of `operator<<(FileFlags)`: the access word, then `|` and the
      name of each entry the flags meet. */
  method RenderFlags(modes: AccessModes, table: seq<Entry>, flags: bv32) returns (s: string)
    ensures s == FlagsText(modes, table, flags)
  {
    s := SwitchAccessMode(modes, flags);
    s := PipeSelected(s, table, Widen(flags));
  }

  /** The table walk after the switch: `|NAME` appended for each entry the
      word meets, in table order. */
  method PipeSelected(w: string, table: seq<Entry>, word: bv64) returns (s: string)
    ensures s == w + Piped(Selected(table, word))
  {
    s := w;
    var i := 0;
    while i < |table|
      invariant 0 <= i <= |table|
      invariant s == w + Piped(Selected(table[..i], word))
    {
      SelectedStep(table, i, word);
      if Hit(table[i], word) {
        PipedSnoc(Selected(table[..i], word), table[i].name);
        s := s + "|" + table[i].name;
      } else {
        assert Selected(table[..i], word) + [] == Selected(table[..i], word);
      }
      i := i + 1;
    }
    assert table[..i] == table;
  }

  // ---------------------------------------------------------------------
  // The table as fm.cc writes it, with x86-64 Linux (glibc) values.
  // ---------------------------------------------------------------------

  const LinuxAccessModes := AccessModes(3, 0, 1, 2)

  /** With the Linux values the two low bits choose the word: 0 `O_RDONLY`,
      1 `O_WRONLY`, 2 `O_RDWR`, and 3, which no mode has, `??ACCESS??`. */
  lemma LinuxAccessWords(flags: bv32)
    ensures var w := AccessWord(LinuxAccessModes, flags & LinuxAccessModes.accMode);
      && (flags & 3 == 0 <==> w == "O_RDONLY")
      && (flags & 3 == 1 <==> w == "O_WRONLY")
      && (flags & 3 == 2 <==> w == "O_RDWR")
      && (flags & 3 == 3 <==> w == "??ACCESS??")
  {
    var mode := flags & 3;
    assert mode == 0 || mode == 1 || mode == 2 || mode == 3;
    AccessWordMeaning(LinuxAccessModes, mode);
  }

  /** The open-flag rows of fm.cc's table. `O_LARGEFILE` is 0 in 64-bit
      user space, so that row never matches. */
  const OpenFlagsTable: seq<Entry> := [
    Entry(0x40, "O_CREAT"),
    Entry(0x80, "O_EXCL"),
    Entry(0x100, "O_NOCTTY"),
    Entry(0x200, "O_TRUNC"),
    Entry(0x400, "O_APPEND"),
    Entry(0x800, "O_NONBLOCK"),
    Entry(0x1000, "O_DSYNC"),
    Entry(0x4000, "O_DIRECT"),
    Entry(0, "O_LARGEFILE"),
    Entry(0x1_0000, "O_DIRECTORY"),
    Entry(0x8_0000, "O_CLOEXEC")
  ]

  /** fm.cc's table as written: the open flags and then a `FAN_OPEN_PERM` row,
      whose value 0x10000 is also `O_DIRECTORY` here. */
  const OpenFlagsTableAsWritten: seq<Entry> := OpenFlagsTable + [Entry(0x1_0000, "FAN_OPEN_PERM")]

  /** A directory opened read-only is reported with a fanotify event name. */
  lemma StrayEntryNamesDirectory()
    ensures FlagsText(LinuxAccessModes, OpenFlagsTableAsWritten, 0x1_0000)
         == "O_RDONLY" + "|O_DIRECTORY" + "|FAN_OPEN_PERM"
  {
    StraySelection();
    PipedPair("O_DIRECTORY", "FAN_OPEN_PERM");
    assert Widen(0x1_0000) == 0x1_0000;
    assert AccessWord(LinuxAccessModes, 0x1_0000 & 3) == "O_RDONLY";
  }

  lemma PipedPair(a: string, b: string)
    ensures Piped([a, b]) == "|" + a + "|" + b
  {
    assert [a, b][..1] == [a];
    assert [a][..0] == [];
    assert Piped([a]) == "" + "|" + a == "|" + a;
  }

  lemma StraySelection()
    ensures Selected(OpenFlagsTableAsWritten, 0x1_0000) == ["O_DIRECTORY", "FAN_OPEN_PERM"]
  {
    var t := OpenFlagsTableAsWritten;
    var w: bv64 := 0x1_0000;
    DirectoryPrefix();
    assert t[..11][..10] == t[..10] == OpenFlagsTable[..10];
    assert Selected(t[..11], w) == ["O_DIRECTORY"];
    assert t[..11] == t[..|t| - 1];
  }

  /** The first ten rows of the open-flag table name 0x10000 once, as `O_DIRECTORY`. */
  lemma DirectoryPrefix()
    ensures Selected(OpenFlagsTable[..10], 0x1_0000) == ["O_DIRECTORY"]
  {
    var t := OpenFlagsTable;
    var w: bv64 := 0x1_0000;
    assert t[..1][..0] == [];
    assert Selected(t[..1], w) == [];
    assert t[..2][..1] == t[..1];
    assert Selected(t[..2], w) == [];
    assert t[..3][..2] == t[..2];
    assert Selected(t[..3], w) == [];
    assert t[..4][..3] == t[..3];
    assert Selected(t[..4], w) == [];
    assert t[..5][..4] == t[..4];
    assert Selected(t[..5], w) == [];
    assert t[..6][..5] == t[..5];
    assert Selected(t[..6], w) == [];
    assert t[..7][..6] == t[..6];
    assert Selected(t[..7], w) == [];
    assert t[..8][..7] == t[..7];
    assert Selected(t[..8], w) == [];
    assert t[..9][..8] == t[..8];
    assert Selected(t[..9], w) == [];
    assert t[..10][..9] == t[..9];
    assert t[..10][9] == Entry(0x1_0000, "O_DIRECTORY");
    assert Selected(t[..10], w) == [] + ["O_DIRECTORY"];
  }

  /** Every name in the table is an `open(2)` flag name. */
  predicate OpenFlagNames(table: seq<Entry>)
  {
    forall i :: 0 <= i < |table| ==> |table[i].name| >= 2 && table[i].name[..2] == "O_"
  }

  /** Whatever the flags, the corrected table reports only open-flag names. */
  lemma OnlyOpenFlagNames(flags: bv32)
    ensures forall k :: 0 <= k < |Selected(OpenFlagsTable, Widen(flags))| ==>
      |Selected(OpenFlagsTable, Widen(flags))[k]| >= 2 && Selected(OpenFlagsTable, Widen(flags))[k][..2] == "O_"
  {
    var t := OpenFlagsTable;
    assert OpenFlagNames(t) by {
      forall i | 0 <= i < |t| ensures |t[i].name| >= 2 && t[i].name[..2] == "O_" {
        OpenFlagName(i);
      }
    }
    SelectedInTableOrder(t, Widen(flags));
  }

  lemma OpenFlagName(i: nat)
    requires i < |OpenFlagsTable|
    ensures |OpenFlagsTable[i].name| >= 2 && OpenFlagsTable[i].name[..2] == "O_"
  {
  }

  /** With the corrected table, the flags of a read-only directory render as
      `O_RDONLY|O_DIRECTORY`. */
  lemma DirectoryFlagsCorrected()
    ensures FlagsText(LinuxAccessModes, OpenFlagsTable, 0x1_0000) == "O_RDONLY|O_DIRECTORY"
  {
    var t := OpenFlagsTable;
    DirectoryPrefix();
    assert t[..10] == t[..|t| - 1];
    assert Selected(t, 0x1_0000) == ["O_DIRECTORY"];
    assert ["O_DIRECTORY"][..0] == [];
    assert Piped(["O_DIRECTORY"]) == "|O_DIRECTORY";
    assert Widen(0x1_0000) == 0x1_0000;
    assert AccessWord(LinuxAccessModes, 0x1_0000 & 3) == "O_RDONLY";
  }
}
