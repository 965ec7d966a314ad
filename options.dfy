/** The command line of `main`: the getopt loop that folds `-a -m -o -r -w`
    into an event mask, the usage exits, the empty-mask default and the
    banner that announces the mask. Option letters arrive as the sequence of
    characters `getopt(argc, argv, "aomrwh")` returns; the operands are
    `argv[optind..]`. */
module Options {
  import opened Common
  import opened FlagTable
  import opened FanMask

  /** `-a`, `-m`, `-o`, `-r`, `-w`: the letters that select an event. */
  predicate MaskLetter(c: char)
  {
    c == 'a' || c == 'm' || c == 'o' || c == 'r' || c == 'w'
  }

  /** The bit `mask |= ...` adds for a letter of the switch. */
  function LetterBit(c: char): bv64
  {
    match c
    case 'a' => FanAccess
    case 'm' => FanModify
    case 'o' => FanOpen
    case 'r' => FanCloseNowrite
    case 'w' => FanCloseWrite
    case _ => 0
  }

  /** The help text `usage` writes before `exit(1)`. */
  const UsageText: string :=
    "usage: [options] <files...>"
    + "\nOptions:"
    + "\n\t-a:\tmonitor access"
    + "\n\t-m:\tmonitor modify"
    + "\n\t-o:\tmonitor open"
    + "\n\t-r:\tmonitor close (read)"
    + "\n\t-w:\tmonitor close (write)"
    + "\n"

  /** What the command line leads to: `usage` on standard output (`-h`) or on
      standard error, each followed by `exit(1)`; or watching `targets`
      with `mask`. */
  datatype Outcome = Usage(toStdout: bool) | Watch(mask: bv64, targets: seq<string>)

  /** The mask used when no letter selected an event: `FAN_MODIFY|FAN_CLOSE`. */
  const DefaultMask: bv64 := FanModify | FanClose

  /** The OR of the bits of the letters, folded from the front. */
  function OrMask(opts: seq<char>): bv64
  {
    if opts == [] then 0 else OrMask(opts[..|opts| - 1]) | LetterBit(opts[|opts| - 1])
  }

  /** The position of the first letter that is not an event letter, or `|opts|`. */
  function FirstOther(opts: seq<char>): (k: nat)
    ensures k <= |opts|
    ensures forall i :: 0 <= i < k ==> MaskLetter(opts[i])
    ensures k < |opts| ==> !MaskLetter(opts[k])
  {
    if opts == [] || !MaskLetter(opts[0]) then 0 else 1 + FirstOther(opts[1..])
  }

  lemma OrMaskStep(opts: seq<char>, i: nat)
    requires i < |opts|
    ensures OrMask(opts[..i + 1]) == OrMask(opts[..i]) | LetterBit(opts[i])
  {
    assert opts[..i + 1][..i] == opts[..i];
  }

  /** What `main` does with getopt's letters and the operands. */
  function Parse(opts: seq<char>, operands: seq<string>): Outcome
  {
    var k := FirstOther(opts);
    if k < |opts| then Usage(opts[k] == 'h')
    else if operands == [] then Usage(false)
    else if OrMask(opts) == 0 then Watch(DefaultMask, operands)
    else Watch(OrMask(opts), operands)
  }

  /** One pass of the `switch (c)`: an event letter ORs its bit into the
      mask; `-h` (standard output) and any other letter (standard error) stop
      in `usage`. */
  method SwitchLetter(mask: bv64, c: char) returns (next: bv64, stop: bool, toStdout: bool)
    ensures stop <==> !MaskLetter(c)
    ensures !stop ==> next == mask | LetterBit(c)
    ensures stop ==> toStdout == (c == 'h')
  {
    next, stop, toStdout := mask, false, false;
    if c == 'a' {
      next := mask | FanAccess;
    } else if c == 'm' {
      next := mask | FanModify;
    } else if c == 'o' {
      next := mask | FanOpen;
    } else if c == 'r' {
      next := mask | FanCloseNowrite;
    } else if c == 'w' {
      next := mask | FanCloseWrite;
    } else if c == 'h' {
      stop, toStdout := true, true;
    } else {
      stop := true;
    }
  }

  /** The getopt loop of `main` and what follows it: fold the event letters
      into the mask until a letter calls `usage`; then no operands is a usage
      error and a zero mask takes the default. */
  method FoldOptions(opts: seq<char>, operands: seq<string>) returns (outcome: Outcome)
    ensures outcome == Parse(opts, operands)
  {
    var mask: bv64 := 0;
    var i := 0;
    while i < |opts|
      invariant 0 <= i <= |opts| && i <= FirstOther(opts)
      invariant mask == OrMask(opts[..i])
    {
      OrMaskStep(opts, i);
      var stop, toStdout;
      mask, stop, toStdout := SwitchLetter(mask, opts[i]);
      if stop {
        return Usage(toStdout);
      }
      i := i + 1;
    }
    assert opts[..i] == opts;
    if |operands| == 0 {
      return Usage(false);
    }
    if mask == 0 {
      mask := FanModify | FanClose;
    }
    return Watch(mask, operands);
  }

  // ---------------------------------------------------------------------
  // The mask as a function of which letters were given.
  // ---------------------------------------------------------------------

  /** The mask that has the bit of each letter marked present. */
  function LettersMask(a: bool, m: bool, o: bool, r: bool, w: bool): bv64
  {
    (if a then FanAccess else 0)
    | (if m then FanModify else 0)
    | (if o then FanOpen else 0)
    | (if r then FanCloseNowrite else 0)
    | (if w then FanCloseWrite else 0)
  }

  /** The mask of the letters that occur in `opts`. */
  function MaskOfLetters(opts: seq<char>): bv64
  {
    LettersMask('a' in opts, 'm' in opts, 'o' in opts, 'r' in opts, 'w' in opts)
  }

  lemma LetterStep(a: bool, m: bool, o: bool, r: bool, w: bool, c: char)
    ensures LettersMask(a, m, o, r, w) | LetterBit(c)
         == LettersMask(a || c == 'a', m || c == 'm', o || c == 'o', r || c == 'r', w || c == 'w')
  {
  }

  /** The folded mask has the bit of a letter exactly when that letter was
      given, whatever the order and however often. */
  lemma {:induction false} OrMaskClosedForm(opts: seq<char>)
    ensures OrMask(opts) == MaskOfLetters(opts)
  {
    if opts != [] {
      var n := |opts| - 1;
      var front := opts[..n];
      var c := opts[n];
      OrMaskClosedForm(front);
      assert opts == front + [c];
      LetterStep('a' in front, 'm' in front, 'o' in front, 'r' in front, 'w' in front, c);
      assert ('a' in opts) == ('a' in front || c == 'a');
      assert ('m' in opts) == ('m' in front || c == 'm');
      assert ('o' in opts) == ('o' in front || c == 'o');
      assert ('r' in opts) == ('r' in front || c == 'r');
      assert ('w' in opts) == ('w' in front || c == 'w');
    }
  }

  /** Reordering or repeating letters does not change the mask. */
  lemma OrMaskOrderAndRepeats(p: seq<char>, q: seq<char>)
    requires forall c :: c in p <==> c in q
    ensures OrMask(p) == OrMask(q)
    ensures OrMask(p + p) == OrMask(p)
  {
    OrMaskClosedForm(p);
    OrMaskClosedForm(q);
    OrMaskClosedForm(p + p);
    assert forall c :: c in p + p <==> c in p;
    assert MaskOfLetters(p) == MaskOfLetters(q);
    assert MaskOfLetters(p + p) == MaskOfLetters(p);
  }

  lemma LettersMaskZero(a: bool, m: bool, o: bool, r: bool, w: bool)
    ensures LettersMask(a, m, o, r, w) == 0 <==> !(a || m || o || r || w)
  {
  }

  /** The folded mask is zero exactly when no event letter was given. */
  lemma {:induction false} OrMaskZero(opts: seq<char>)
    ensures OrMask(opts) == 0 <==> forall i :: 0 <= i < |opts| ==> !MaskLetter(opts[i])
  {
    OrMaskClosedForm(opts);
    LettersMaskZero('a' in opts, 'm' in opts, 'o' in opts, 'r' in opts, 'w' in opts);
    if exists i :: 0 <= i < |opts| && MaskLetter(opts[i]) {
      var i :| 0 <= i < |opts| && MaskLetter(opts[i]);
      assert opts[i] in opts;
    }
  }

  /** How the command line ends: usage for `-h`, an unknown letter or no
      path; otherwise the letters' mask, or `FAN_MODIFY|FAN_CLOSE` when no
      event letter was given, over the operands. */
  lemma ParseOutcomes(opts: seq<char>, operands: seq<string>)
    ensures var o := Parse(opts, operands);
      && (o.Usage? <==> (exists i :: 0 <= i < |opts| && !MaskLetter(opts[i])) || operands == [])
      && (o == Usage(true) <==> exists i :: 0 <= i < |opts| && opts[i] == 'h' && forall j :: 0 <= j < i ==> MaskLetter(opts[j]))
      && (o.Watch? ==> o.targets == operands && o.mask != 0)
      && (o.Watch? && opts == [] ==> o.mask == FanModify | FanCloseWrite | FanCloseNowrite)
      && (o.Watch? && opts != [] ==> o.mask == MaskOfLetters(opts))
  {
    var k := FirstOther(opts);
    OrMaskClosedForm(opts);
    OrMaskZero(opts);
    if exists i :: 0 <= i < |opts| && opts[i] == 'h' && forall j :: 0 <= j < i ==> MaskLetter(opts[j]) {
      var i :| 0 <= i < |opts| && opts[i] == 'h' && forall j :: 0 <= j < i ==> MaskLetter(opts[j]);
      assert !(k < i) && !(i < k);
    }
    if k < |opts| {
      assert opts[k] == 'h' ==> forall j :: 0 <= j < k ==> MaskLetter(opts[j]);
    }
  }

  /** `mask events: ` and the mask's names, as `main` logs it before
      registering the operands. */
  function Banner(mask: bv64): string
  {
    "mask events: " + FanMaskText(mask) + "\n"
  }

  /** What the command line writes before watching begins, on standard
      output and on standard error. */
  datatype Text = Text(out: string, err: string)

  /** `usage(std::cout)` for `-h` and `usage(std::clog)` for the other usage
      exits; when watching, the banner on `std::clog`. */
  function Written(o: Outcome): (t: Text)
    ensures t.out != "" <==> o == Usage(true)
    ensures o.Usage? ==> t.out + t.err == UsageText && (t.out == "" || t.err == "")
    ensures o.Watch? ==> t.out == "" && t.err == Banner(o.mask)
  {
    assert UsageText[0] == 'u';
    match o
    case Usage(toStdout) => if toStdout then Text(UsageText, "") else Text("", UsageText)
    case Watch(mask, _) => Text("", Banner(mask))
  }

  lemma DefaultSelectionPrefix()
    ensures Selected(FanTable[..4], DefaultMask) == ["FAN_MODIFY", "FAN_CLOSE_WRITE"]
  {
    var m := DefaultMask;
    assert m == 0x1a;
    var t := FanTable;
    assert t[..1][..0] == [];
    assert Selected(t[..1], m) == [];
    assert t[..2][..1] == t[..1];
    assert Selected(t[..2], m) == [];
    assert t[..3][..2] == t[..2];
    assert Selected(t[..3], m) == ["FAN_MODIFY"];
    assert t[..4][..3] == t[..3];
    assert Selected(t[..4], m) == ["FAN_MODIFY", "FAN_CLOSE_WRITE"];
  }

  lemma DefaultSelection()
    ensures Selected(FanTable, DefaultMask) == ["FAN_MODIFY", "FAN_CLOSE_WRITE", "FAN_CLOSE_NOWRITE"]
  {
    var m := DefaultMask;
    var t := FanTable;
    DefaultSelectionPrefix();
    assert t[..5][..4] == t[..4];
    assert Selected(t[..5], m) == ["FAN_MODIFY", "FAN_CLOSE_WRITE", "FAN_CLOSE_NOWRITE"];
    assert t[..6][..5] == t[..5];
    assert Selected(t[..6], m) == ["FAN_MODIFY", "FAN_CLOSE_WRITE", "FAN_CLOSE_NOWRITE"];
    assert t[..7][..6] == t[..6];
    assert Selected(t[..7], m) == ["FAN_MODIFY", "FAN_CLOSE_WRITE", "FAN_CLOSE_NOWRITE"];
    assert t[..7] == t[..|t| - 1];
    assert Selected(t, m) == ["FAN_MODIFY", "FAN_CLOSE_WRITE", "FAN_CLOSE_NOWRITE"];
  }

  /** With no event letter the banner names the modify and both close events. */
  lemma DefaultMaskText()
    ensures FanMaskText(DefaultMask) == "FAN_MODIFY" + "|" + "FAN_CLOSE_WRITE" + "|" + "FAN_CLOSE_NOWRITE"
    ensures Banner(DefaultMask)
         == "mask events: " + "FAN_MODIFY" + "|" + "FAN_CLOSE_WRITE" + "|" + "FAN_CLOSE_NOWRITE" + "\n"
  {
    DefaultSelection();
    var names := ["FAN_MODIFY", "FAN_CLOSE_WRITE", "FAN_CLOSE_NOWRITE"];
    assert names[1..][1..] == ["FAN_CLOSE_NOWRITE"];
    assert Join(names[1..]) == "FAN_CLOSE_WRITE" + "|" + "FAN_CLOSE_NOWRITE";
  }
}
