/** The fanotify event kinds and `operator<<(FanMask)`: the fixed table of
    event names in the order fm.cc lists them, and the facts about the text
    it renders for an event mask. */
module FanMask {
  import opened Common
  import opened FlagTable

  // Event bits, as <linux/fanotify.h> defines them.
  const FanAccess: bv64 := 0x0000_0001
  const FanModify: bv64 := 0x0000_0002
  const FanCloseWrite: bv64 := 0x0000_0008
  const FanCloseNowrite: bv64 := 0x0000_0010
  const FanOpen: bv64 := 0x0000_0020
  const FanQOverflow: bv64 := 0x0000_4000
  const FanOpenPerm: bv64 := 0x0001_0000
  const FanAccessPerm: bv64 := 0x0002_0000
  const FanClose: bv64 := FanCloseWrite | FanCloseNowrite

  /** The renderer's table, in its own order (not the order of the bits). */
  const FanTable: seq<Entry> := [
    Entry(FanAccess, "FAN_ACCESS"),
    Entry(FanOpen, "FAN_OPEN"),
    Entry(FanModify, "FAN_MODIFY"),
    Entry(FanCloseWrite, "FAN_CLOSE_WRITE"),
    Entry(FanCloseNowrite, "FAN_CLOSE_NOWRITE"),
    Entry(FanQOverflow, "FAN_Q_OVERFLOW"),
    Entry(FanAccessPerm, "FAN_ACCESS_PERM"),
    Entry(FanOpenPerm, "FAN_OPEN_PERM")
  ]

  /** The bits the table can name. */
  const KnownEvents: bv64 := 0x0003_403b

  /** The text `operator<<(FanMask)` writes for `mask`. */
  function FanMaskText(mask: bv64): string
  {
    Join(Selected(FanTable, mask))
  }

  /** The text splits back at `|` into exactly the names of the event kinds
      in the mask, in table order; so it never begins or ends with `|`, and it
      is empty exactly when no named kind is in the mask. */
  lemma FanMaskTextNames(mask: bv64)
    ensures Split(FanMaskText(mask)) == Selected(FanTable, mask)
    ensures FanMaskText(mask) == [] <==> Selected(FanTable, mask) == []
    ensures FanMaskText(mask) != [] ==>
      FanMaskText(mask)[0] != '|' && FanMaskText(mask)[|FanMaskText(mask)| - 1] != '|'
  {
    FanTablePlain();
    PlainSelection(FanTable, mask);
    SplitJoin(Selected(FanTable, mask));
    JoinNonEmpty(Selected(FanTable, mask));
  }

  lemma FanTablePlain()
    ensures PlainTable(FanTable)
  {
    forall i | 0 <= i < |FanTable| ensures FanTable[i].name != "" && '|' !in FanTable[i].name {
    }
  }

  lemma KnownEventsCovered()
    ensures Covered(FanTable) == KnownEvents
  {
    var t := FanTable;
    assert t[..1][..0] == [];
    assert Covered(t[..1]) == 0x1;
    assert t[..2][..1] == t[..1];
    assert Covered(t[..2]) == 0x21;
    assert t[..3][..2] == t[..2];
    assert Covered(t[..3]) == 0x23;
    assert t[..4][..3] == t[..3];
    assert Covered(t[..4]) == 0x2b;
    assert t[..5][..4] == t[..4];
    assert Covered(t[..5]) == 0x3b;
    assert t[..6][..5] == t[..5];
    assert Covered(t[..6]) == 0x403b;
    assert t[..7][..6] == t[..6];
    assert Covered(t[..7]) == 0x2403b;
    assert t[..7] == t[..|t| - 1];
  }

  /** Bits outside the table are dropped silently. */
  lemma UnknownEventsDropped(mask: bv64)
    ensures FanMaskText(mask) == FanMaskText(mask & KnownEvents)
  {
    KnownEventsCovered();
    UnknownBitsIgnored(FanTable, mask);
  }

  /** An empty mask renders as the empty string. */
  lemma EmptyMaskText()
    ensures FanMaskText(0) == ""
  {
    ZeroSelectsNothing(FanTable);
  }

  /** Table order, not bit order: `FAN_OPEN` (0x20) comes before `FAN_MODIFY` (0x2). */
  lemma OpenBeforeModify()
    ensures FanMaskText(FanModify | FanOpen) == "FAN_OPEN|FAN_MODIFY"
  {
    var m := FanModify | FanOpen;
    var t := FanTable;
    assert t[..1][..0] == [];
    assert Selected(t[..1], m) == [];
    assert t[..2][..1] == t[..1];
    assert Selected(t[..2], m) == ["FAN_OPEN"];
    assert t[..3][..2] == t[..2];
    assert Selected(t[..3], m) == ["FAN_OPEN", "FAN_MODIFY"];
    assert t[..4][..3] == t[..3];
    assert Selected(t[..4], m) == ["FAN_OPEN", "FAN_MODIFY"];
    assert t[..5][..4] == t[..4];
    assert Selected(t[..5], m) == ["FAN_OPEN", "FAN_MODIFY"];
    assert t[..6][..5] == t[..5];
    assert Selected(t[..6], m) == ["FAN_OPEN", "FAN_MODIFY"];
    assert t[..7][..6] == t[..6];
    assert Selected(t[..7], m) == ["FAN_OPEN", "FAN_MODIFY"];
    assert t[..7] == t[..|t| - 1];
    assert Selected(t, m) == ["FAN_OPEN", "FAN_MODIFY"];
    assert ["FAN_OPEN", "FAN_MODIFY"][1..] == ["FAN_MODIFY"];
    assert Join(["FAN_OPEN", "FAN_MODIFY"]) == "FAN_OPEN" + "|" + "FAN_MODIFY";
  }
}
