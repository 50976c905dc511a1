/** The keyboard's scan-code machine (kern/console.c, `kbd_proc_data`). */
module Keyboard {
  import opened Machine

  const E0: Byte := 0xE0

  // ---------- What a stream of scan codes means ----------

  /** A byte after 0xE0 belongs to the extended half of the keyboard. */
  predicate Prefixed(h: seq<Byte>, i: int) {
    0 < i <= |h| && h[i - 1] == E0
  }

  /** The key of the event at `i`: extended keys count from 0x80. */
  function KeyAt(h: seq<Byte>, i: int): Byte
    requires 0 <= i < |h|
  {
    h[i] % 0x80 + (if Prefixed(h, i) then 0x80 else 0)
  }

  predicate IsMake(h: seq<Byte>, i: int) {
    0 <= i < |h| && h[i] < 0x80
  }

  predicate IsBreak(h: seq<Byte>, i: int) {
    0 <= i < |h| && h[i] >= 0x80 && h[i] != E0
  }

  /** One of these keys went down and none of them came up since. */
  ghost predicate Held(h: seq<Byte>, keys: set<Byte>) {
    exists i :: IsMake(h, i) && KeyAt(h, i) in keys
                && forall j :: i < j && IsBreak(h, j) ==> KeyAt(h, j) !in keys
  }

  /** How often this key went down. */
  function Presses(h: seq<Byte>, key: Byte): nat {
    if h == [] then 0
    else Presses(h[..|h| - 1], key) + if IsMake(h, |h| - 1) && KeyAt(h, |h| - 1) == key then 1 else 0
  }

  /** Both control keys and both alternate keys count, but no extended shift key. */
  const CTRL_KEYS: set<Byte> := {0x1D, 0x9D}
  const ALT_KEYS: set<Byte> := {0x38, 0xB8}
  const SHIFT_KEYS: set<Byte> := {0x2A, 0x36}
  const CAPS_KEY: Byte := 0x3A
  const NUM_KEY: Byte := 0x45
  const SCROLL_KEY: Byte := 0x46

  lemma KeysOfPrefix(h: seq<Byte>, b: Byte)
    ensures forall i :: 0 <= i < |h| ==> KeyAt(h + [b], i) == KeyAt(h, i)
    ensures forall i :: 0 <= i < |h| ==> IsMake(h + [b], i) == IsMake(h, i) && IsBreak(h + [b], i) == IsBreak(h, i)
  {
  }

  /** What the next byte does to a group of keys: only an event of one of them matters. */
  lemma HeldNext(h: seq<Byte>, b: Byte, keys: set<Byte>)
    ensures Held(h + [b], keys)
            <==> if b != E0 && KeyAt(h + [b], |h|) in keys then b < 0x80 else Held(h, keys)
  {
    var g := h + [b];
    KeysOfPrefix(h, b);
    if b != E0 && KeyAt(g, |h|) in keys {
      if b < 0x80 {
        assert IsMake(g, |h|);
      } else {
        assert IsBreak(g, |h|);
      }
    } else {
      if Held(h, keys) {
        var i :| IsMake(h, i) && KeyAt(h, i) in keys && forall j :: i < j && IsBreak(h, j) ==> KeyAt(h, j) !in keys;
        assert IsMake(g, i);
      }
      if Held(g, keys) {
        var i :| IsMake(g, i) && KeyAt(g, i) in keys && forall j :: i < j && IsBreak(g, j) ==> KeyAt(g, j) !in keys;
        assert IsMake(h, i);
      }
    }
  }

  lemma PressesNext(h: seq<Byte>, b: Byte, key: Byte)
    ensures Presses(h + [b], key) == Presses(h, key) + if b < 0x80 && KeyAt(h + [b], |h|) == key then 1 else 0
  {
    assert (h + [b])[..|h|] == h;
  }

  // ---------- The key maps ----------

  const KEY_HOME: Byte := 0xE0
  const KEY_END: Byte := 0xE1
  const KEY_UP: Byte := 0xE2
  const KEY_DN: Byte := 0xE3
  const KEY_LF: Byte := 0xE4
  const KEY_RT: Byte := 0xE5
  const KEY_PGUP: Byte := 0xE6
  const KEY_PGDN: Byte := 0xE7
  const KEY_INS: Byte := 0xE8
  const KEY_DEL: Byte := 0xE9

  /** The maps of single keys, in rows of eight. */
  function NormalRow(row: int): (r: string)
    ensures |r| == 8
  {
    match row
    case 0 => "\0\U{1B}123456"
    case 1 => "7890-=\U{8}\t"
    case 2 => "qwertyui"
    case 3 => "op[]\n\0as"
    case 4 => "dfghjkl;"
    case 5 => "'`\0\\zxcv"
    case 6 => "bnm,./\0*"
    case 7 => "\0 \0\0\0\0\0\0"
    case 8 => "\0\0\0\0\0\0\07"
    case 9 => "89-456+1"
    case 10 => "230.\0\0\0\0"
    case _ => "\0\0\0\0\0\0\0\0"
  }

  function ShiftRow(row: int): (r: string)
    ensures |r| == 8
  {
    match row
    case 0 => "\0\U{1B}!@#$%^"
    case 1 => "&*()_+\U{8}\t"
    case 2 => "QWERTYUI"
    case 3 => "OP{}\n\0AS"
    case 4 => "DFGHJKL:"
    case 5 => "\"~\0|ZXCV"
    case 6 => "BNM<>?\0*"
    case _ => NormalRow(row)
  }

  /** The keys of the control map, as the characters their codes are 0x40 below. */
  function ControlRow(row: int): (r: string)
    ensures |r| == 8
  {
    match row
    case 2 => "QWERTYUI"
    case 3 => "OP@@M@AS"
    case 4 => "DFGHJKL@"
    case 5 => "@@@\\ZXCV"
    case 6 => "BNM@@/@@"
    case _ => "@@@@@@@@"
  }

  /** The arrow keys and their neighbours. */
  function CursorKey(key: Byte): Byte {
    match key
    case 0xC8 => KEY_UP
    case 0xC9 => KEY_PGUP
    case 0xCB => KEY_LF
    case 0xCD => KEY_RT
    case 0xCF => KEY_END
    case 0xD0 => KEY_DN
    case 0xD1 => KEY_PGDN
    case 0xD2 => KEY_INS
    case 0xD3 => KEY_DEL
    case _ => 0
  }

  /** The keys past the rows. */
  function PlainExtension(key: Byte): Byte {
    if key == 0xC7 then KEY_HOME
    else if key == 0x9C then '\n' as int
    else if key == 0xB5 then '/' as int
    else CursorKey(key)
  }

  function NormalKey(key: Byte): Byte {
    if key < 0x58 then NormalRow(key / 8)[key % 8] as int % 0x100 else PlainExtension(key)
  }

  function ShiftKey(key: Byte): Byte {
    if key < 0x58 then ShiftRow(key / 8)[key % 8] as int % 0x100 else PlainExtension(key)
  }

  /** With control the home key's code is missing; key 0x97 has it instead. */
  function ControlKey(key: Byte): Byte {
    if key < 0x38 then (ControlRow(key / 8)[key % 8] as int - 0x40) % 0x100
    else if key == 0x97 then KEY_HOME
    else if key == 0xB5 then ('/' as int - 0x40) % 0x100
    else CursorKey(key)
  }

  /** The character of a key, given what is held and whether caps lock is on. */
  function Translate(key: Byte, ctl: bool, shift: bool, caps: bool): Byte {
    var c := if ctl then ControlKey(key) else if shift then ShiftKey(key) else NormalKey(key);
    if caps && 'a' as int <= c <= 'z' as int then c - 0x20
    else if caps && 'A' as int <= c <= 'Z' as int then c + 0x20
    else c
  }

  predicate IsLower(c: int) {
    'a' as int <= c <= 'z' as int
  }

  predicate IsLetter(c: int) {
    IsLower(c) || 'A' as int <= c <= 'Z' as int
  }

  /** A letter in one map is the same letter in the others; nothing else is a letter, and one key deletes. */
  predicate Agree(key: Byte) {
    var c, s, t := NormalKey(key), ShiftKey(key), ControlKey(key);
    && CodesAgree(c, s, t)
    && (c == KEY_DEL <==> key == 0xD3) && (s == KEY_DEL <==> key == 0xD3) && (t == KEY_DEL <==> key == 0xD3)
  }

  predicate CodesAgree(c: int, s: int, t: int) {
    if IsLower(c) then s == c - 0x20 && t == c - 0x60 else !IsLetter(c) && !IsLetter(s) && !IsLetter(t)
  }

  /** The same for one column of a row, where no code is as large as a special key's. */
  predicate CharsAgree(n: char, s: char, t: char) {
    var c, d, e := n as int, s as int, (t as int - 0x40) % 0x100;
    c < 0x80 && d < 0x80 && t as int < 0x80 && e != KEY_DEL && CodesAgree(c, d, e)
  }

  ghost predicate RowsAgree(n: string, s: string, t: string) {
    |n| == |s| == |t| == 8 && forall j :: 0 <= j < 8 ==> CharsAgree(n[j], s[j], t[j])
  }

  lemma RowsByColumn(n: string, s: string, t: string)
    requires |n| == |s| == |t| == 8
    requires CharsAgree(n[0], s[0], t[0]) && CharsAgree(n[1], s[1], t[1])
    requires CharsAgree(n[2], s[2], t[2]) && CharsAgree(n[3], s[3], t[3])
    requires CharsAgree(n[4], s[4], t[4]) && CharsAgree(n[5], s[5], t[5])
    requires CharsAgree(n[6], s[6], t[6]) && CharsAgree(n[7], s[7], t[7])
    ensures RowsAgree(n, s, t)
  {
    hide CharsAgree;
  }

  lemma UpperRowsAgree(row: int)
    requires 0 <= row < 4
    ensures RowsAgree(NormalRow(row), ShiftRow(row), ControlRow(row))
  {
    hide RowsAgree;
    match row
    case 0 => RowsByColumn(NormalRow(0), ShiftRow(0), ControlRow(0));
    case 1 => RowsByColumn(NormalRow(1), ShiftRow(1), ControlRow(1));
    case 2 => RowsByColumn(NormalRow(2), ShiftRow(2), ControlRow(2));
    case 3 => RowsByColumn(NormalRow(3), ShiftRow(3), ControlRow(3));
  }

  lemma LowerRowsAgree(row: int)
    requires 4 <= row < 8
    ensures RowsAgree(NormalRow(row), ShiftRow(row), ControlRow(row))
  {
    hide RowsAgree;
    match row
    case 4 => RowsByColumn(NormalRow(4), ShiftRow(4), ControlRow(4));
    case 5 => RowsByColumn(NormalRow(5), ShiftRow(5), ControlRow(5));
    case 6 => RowsByColumn(NormalRow(6), ShiftRow(6), ControlRow(6));
    case 7 => RowsByColumn(NormalRow(7), ShiftRow(7), ControlRow(7));
  }

  lemma KeypadRowsAgree(row: int)
    requires 8 <= row < 11
    ensures RowsAgree(NormalRow(row), ShiftRow(row), ControlRow(row))
  {
    hide RowsAgree;
    match row
    case 8 => RowsByColumn(NormalRow(8), ShiftRow(8), ControlRow(8));
    case 9 => RowsByColumn(NormalRow(9), ShiftRow(9), ControlRow(9));
    case 10 => RowsByColumn(NormalRow(10), ShiftRow(10), ControlRow(10));
  }

  lemma RowKeysAgree(key: Byte)
    requires key < 0x58
    requires CharsAgree(NormalRow(key / 8)[key % 8], ShiftRow(key / 8)[key % 8], ControlRow(key / 8)[key % 8])
    ensures Agree(key)
  {
    hide NormalRow, ShiftRow, ControlRow, CursorKey;
    if key >= 0x38 {
      NoControlKey(key);
    }
  }

  lemma NoControlKey(key: Byte)
    requires 0x38 <= key < 0x58
    ensures ControlKey(key) == 0 && !IsLower(NormalKey(key))
  {
  }

  lemma OtherKeysAgree(key: Byte)
    requires 0x58 <= key
    ensures Agree(key)
  {
  }

  lemma MapsAgree(key: Byte)
    ensures Agree(key)
  {
    hide Agree, NormalRow, ShiftRow, ControlRow, CharsAgree;
    var row := key / 8;
    if row < 4 {
      UpperRowsAgree(row);
    } else if row < 8 {
      LowerRowsAgree(row);
    } else if row < 11 {
      KeypadRowsAgree(row);
    }
    if key < 0x58 {
      RowKeysAgree(key);
    } else {
      OtherKeysAgree(key);
    }
  }

  /** Shift and caps lock cancel out on letters; control makes them the codes 1 to 26, whatever the case. */
  lemma LetterCase(key: Byte, ctl: bool, shift: bool, caps: bool)
    requires IsLower(NormalKey(key))
    ensures var letter := NormalKey(key);
            Translate(key, ctl, shift, caps)
            == if ctl then letter - 0x60 else if shift != caps then letter - 0x20 else letter
  {
    MapsAgree(key);
  }

  /** Caps lock changes nothing but letters. */
  lemma CapsOnlyOnLetters(key: Byte, ctl: bool, shift: bool)
    requires !IsLower(NormalKey(key))
    ensures Translate(key, ctl, shift, true) == Translate(key, ctl, shift, false)
  {
    MapsAgree(key);
  }

  lemma DeleteKey(key: Byte, ctl: bool, shift: bool, caps: bool)
    ensures Translate(key, ctl, shift, caps) == KEY_DEL <==> key == 0xD3
  {
    MapsAgree(key);
  }

  // ---------- The keyboard's layout ----------

  /** From key `first` on, the keys give these characters, plain and with shift. */
  ghost predicate Gives(first: Byte, plain: string, shifted: string) {
    |plain| == |shifted| && first + |plain| <= 0x58 &&
    forall i {:trigger plain[i]} :: 0 <= i < |plain| ==>
      NormalKey(first + i) == plain[i] as int % 0x100 && ShiftKey(first + i) == shifted[i] as int % 0x100
  }

  lemma KeyInRow(row: int, j: int)
    requires 0 <= row < 11 && 0 <= j < 8
    ensures NormalKey(8 * row + j) == NormalRow(row)[j] as int % 0x100
    ensures ShiftKey(8 * row + j) == ShiftRow(row)[j] as int % 0x100
  {
    hide NormalRow, ShiftRow;
    assert (8 * row + j) / 8 == row && (8 * row + j) % 8 == j;
  }

  lemma RowGives(row: int)
    requires 0 <= row < 11
    ensures Gives(8 * row, NormalRow(row), ShiftRow(row))
  {
    hide NormalRow, ShiftRow, NormalKey, ShiftKey;
    forall i | 0 <= i < 8
      ensures NormalKey(8 * row + i) == NormalRow(row)[i] as int % 0x100
      ensures ShiftKey(8 * row + i) == ShiftRow(row)[i] as int % 0x100
    {
      KeyInRow(row, i);
    }
  }

  lemma GivesBoth(first: Byte, p: string, s: string, q: string, t: string)
    requires Gives(first, p, s) && first + |p| < 0x100 && Gives(first + |p|, q, t)
    ensures Gives(first, p + q, s + t)
  {
    hide NormalKey, ShiftKey;
    forall i | 0 <= i < |p + q|
      ensures NormalKey(first + i) == (p + q)[i] as int % 0x100 && ShiftKey(first + i) == (s + t)[i] as int % 0x100
    {
      if i < |p| {
        assert (p + q)[i] == p[i] && (s + t)[i] == s[i];
      } else {
        assert (p + q)[i] == q[i - |p|] && (s + t)[i] == t[i - |p|];
      }
    }
  }

  lemma GivesPart(first: Byte, p: string, s: string, lo: nat, hi: nat)
    requires Gives(first, p, s) && lo <= hi <= |p| && first + lo < 0x100
    ensures Gives(first + lo, p[lo..hi], s[lo..hi])
  {
    hide NormalKey, ShiftKey;
    forall i | 0 <= i < hi - lo
      ensures NormalKey(first + lo + i) == p[lo..hi][i] as int % 0x100
      ensures ShiftKey(first + lo + i) == s[lo..hi][i] as int % 0x100
    {
      assert p[lo..hi][i] == p[lo + i] && s[lo..hi][i] == s[lo + i];
    }
  }

  /** The keys from some place in one row of the map to some place in a later row. */
  lemma ThreeRows(row: int)
    requires 0 <= row < 9
    ensures Gives(8 * row, NormalRow(row) + NormalRow(row + 1) + NormalRow(row + 2),
                  ShiftRow(row) + ShiftRow(row + 1) + ShiftRow(row + 2))
  {
    hide NormalRow, ShiftRow, Gives;
    RowGives(row);
    RowGives(row + 1);
    RowGives(row + 2);
    GivesBoth(8 * row, NormalRow(row), ShiftRow(row), NormalRow(row + 1), ShiftRow(row + 1));
    GivesBoth(8 * row, NormalRow(row) + NormalRow(row + 1), ShiftRow(row) + ShiftRow(row + 1),
              NormalRow(row + 2), ShiftRow(row + 2));
  }

  lemma CutRows(a: string, b: string, c: string, lo: nat, hi: nat)
    requires |a| == |b| == |c| == 8 && lo <= 8 && 16 <= hi <= 24
    ensures (a + b + c)[lo..hi] == a[lo..] + b + c[..hi - 16]
  {
  }

  lemma PartOfRows(row: int, lo: nat, hi: nat, p: string, s: string)
    requires 0 <= row < 9 && lo <= 8 && 16 <= hi <= 24
    requires p == NormalRow(row)[lo..] + NormalRow(row + 1) + NormalRow(row + 2)[..hi - 16]
    requires s == ShiftRow(row)[lo..] + ShiftRow(row + 1) + ShiftRow(row + 2)[..hi - 16]
    ensures Gives(8 * row + lo, p, s)
  {
    hide NormalRow, ShiftRow, Gives;
    ThreeRows(row);
    CutRows(NormalRow(row), NormalRow(row + 1), NormalRow(row + 2), lo, hi);
    CutRows(ShiftRow(row), ShiftRow(row + 1), ShiftRow(row + 2), lo, hi);
    GivesPart(8 * row, NormalRow(row) + NormalRow(row + 1) + NormalRow(row + 2),
              ShiftRow(row) + ShiftRow(row + 1) + ShiftRow(row + 2), lo, hi);
  }

  /** The digits' row of an American keyboard, from escape to the tabulator. */
  lemma DigitKeys()
    ensures Gives(0x01, "\U{1B}1234567890-=\U{8}\t", "\U{1B}!@#$%^&*()_+\U{8}\t")
  {
    hide Gives;
    assert NormalRow(0)[1..] == "\U{1B}123456" && NormalRow(1) == "7890-=\U{8}\t" && NormalRow(2)[..0] == "";
    assert ShiftRow(0)[1..] == "\U{1B}!@#$%^" && ShiftRow(1) == "&*()_+\U{8}\t" && ShiftRow(2)[..0] == "";
    PartOfRows(0, 1, 16, "\U{1B}1234567890-=\U{8}\t", "\U{1B}!@#$%^&*()_+\U{8}\t");
  }

  /** From the tabulator to the enter key. */
  lemma UpperKeys()
    ensures Gives(0x0F, "\tqwertyuiop[]\n", "\tQWERTYUIOP{}\n")
  {
    hide Gives;
    assert NormalRow(1)[7..] == "\t" && NormalRow(2) == "qwertyui" && NormalRow(3)[..5] == "op[]\n";
    assert ShiftRow(1)[7..] == "\t" && ShiftRow(2) == "QWERTYUI" && ShiftRow(3)[..5] == "OP{}\n";
    PartOfRows(1, 7, 21, "\tqwertyuiop[]\n", "\tQWERTYUIOP{}\n");
  }

  /** The home row with the accent key, between the control and the left shift key. */
  lemma HomeKeys()
    ensures Gives(0x1D, "\0asdfghjkl;'`\0", "\0ASDFGHJKL:\"~\0")
  {
    hide Gives;
    assert NormalRow(3)[5..] == "\0as" && NormalRow(4) == "dfghjkl;" && NormalRow(5)[..3] == "'`\0";
    assert ShiftRow(3)[5..] == "\0AS" && ShiftRow(4) == "DFGHJKL:" && ShiftRow(5)[..3] == "\"~\0";
    PartOfRows(3, 5, 19, "\0asdfghjkl;'`\0", "\0ASDFGHJKL:\"~\0");
  }

  /** From the backslash to the space bar and the caps lock key. */
  lemma LowerKeys()
    ensures Gives(0x2B, "\\zxcvbnm,./\0*\0 \0", "|ZXCVBNM<>?\0*\0 \0")
  {
    hide Gives;
    assert NormalRow(5)[3..] == "\\zxcv" && NormalRow(6) == "bnm,./\0*" && NormalRow(7)[..3] == "\0 \0";
    assert ShiftRow(5)[3..] == "|ZXCV" && ShiftRow(6) == "BNM<>?\0*" && ShiftRow(7)[..3] == "\0 \0";
    PartOfRows(5, 3, 19, "\\zxcvbnm,./\0*\0 \0", "|ZXCVBNM<>?\0*\0 \0");
  }

  /** The function keys give nothing, the number pad its digits and signs, with shift or without. */
  lemma NumberPadKeys()
    ensures Gives(0x38, "\0 \0\0\0\0\0\0\0\0\0\0\0\0\07", "\0 \0\0\0\0\0\0\0\0\0\0\0\0\07")
    ensures Gives(0x47, "789-456+1230.\0\0\0\0", "789-456+1230.\0\0\0\0")
  {
    hide Gives;
    assert NormalRow(7)[0..] == "\0 \0\0\0\0\0\0" && NormalRow(8) == "\0\0\0\0\0\0\07" && NormalRow(9)[..0] == "";
    assert ShiftRow(7)[0..] == "\0 \0\0\0\0\0\0" && ShiftRow(8) == "\0\0\0\0\0\0\07" && ShiftRow(9)[..0] == "";
    PartOfRows(7, 0, 16, "\0 \0\0\0\0\0\0\0\0\0\0\0\0\07", "\0 \0\0\0\0\0\0\0\0\0\0\0\0\07");
    assert NormalRow(8)[7..] == "7" && NormalRow(9) == "89-456+1" && NormalRow(10)[..8] == "230.\0\0\0\0";
    assert ShiftRow(8)[7..] == "7" && ShiftRow(9) == "89-456+1" && ShiftRow(10)[..8] == "230.\0\0\0\0";
    PartOfRows(8, 7, 24, "789-456+1230.\0\0\0\0", "789-456+1230.\0\0\0\0");
  }

  /** Control with a key that is no letter gives something for enter, backslash and the two slashes only. */
  lemma ControlKeys(key: Byte)
    requires key < 0x58 && !IsLower(NormalKey(key))
    ensures ControlKey(key)
            == if key == 0x1C then 0x0D else if key == 0x2B then 0x1C else if key == 0x35 then 0xEF else 0
  {
  }

  /** The keys past the number pad; the home key has no code with control. */
  lemma ExtendedKeys(key: Byte)
    requires key >= 0x58
    ensures NormalKey(key) == ShiftKey(key)
            == if key == 0x9C then 10 else if key == 0xB5 then 0x2F else if key == 0xC7 then 0xE0
               else if 0xC8 <= key <= 0xD3
               then [0xE2, 0xE6, 0, 0xE4, 0, 0xE5, 0, 0xE1, 0xE3, 0xE7, 0xE8, 0xE9][key - 0xC8]
               else 0
    ensures ControlKey(key)
            == if key == 0xB5 then 0xEF else if key == 0x97 then 0xE0
               else if key == 0x9C || key == 0xC7 then 0 else NormalKey(key)
  {
  }

  // ---------- The machine ----------

  const SHIFT: bv8 := 1
  const CTL: bv8 := 2
  const ALT: bv8 := 4
  const CAPSLOCK: bv8 := 8
  const NUMLOCK: bv8 := 16
  const SCROLLLOCK: bv8 := 32
  const E0ESC: bv8 := 64

  function ShiftCode(data: Byte): bv8 {
    match data
    case 0x1D => CTL
    case 0x2A => SHIFT
    case 0x36 => SHIFT
    case 0x38 => ALT
    case 0x9D => CTL
    case 0xB8 => ALT
    case _ => 0
  }

  function ToggleCode(data: Byte): bv8 {
    match data
    case 0x3A => CAPSLOCK
    case 0x45 => NUMLOCK
    case 0x46 => SCROLLLOCK
    case _ => 0
  }

  predicate Odd(n: nat) {
    n % 2 == 1
  }

  /** The state word says about the bytes seen so far exactly this. */
  ghost predicate Tracks(shift: bv8, h: seq<Byte>) {
    && (shift & E0ESC != 0 <==> Prefixed(h, |h|))
    && (shift & CTL != 0 <==> Held(h, CTRL_KEYS))
    && (shift & ALT != 0 <==> Held(h, ALT_KEYS))
    && (shift & SHIFT != 0 <==> Held(h, SHIFT_KEYS))
    && (shift & CAPSLOCK != 0 <==> Odd(Presses(h, CAPS_KEY)))
    && (shift & NUMLOCK != 0 <==> Odd(Presses(h, NUM_KEY)))
    && (shift & SCROLLLOCK != 0 <==> Odd(Presses(h, SCROLL_KEY)))
  }

  /** The groups of keys after one more byte. */
  lemma GroupsNext(h: seq<Byte>, b: Byte)
    ensures var g, key := h + [b], KeyAt(h + [b], |h|);
            && (Prefixed(g, |g|) <==> b == E0)
            && (Held(g, CTRL_KEYS) <==> if b != E0 && key in CTRL_KEYS then b < 0x80 else Held(h, CTRL_KEYS))
            && (Held(g, ALT_KEYS) <==> if b != E0 && key in ALT_KEYS then b < 0x80 else Held(h, ALT_KEYS))
            && (Held(g, SHIFT_KEYS) <==> if b != E0 && key in SHIFT_KEYS then b < 0x80 else Held(h, SHIFT_KEYS))
            && (Odd(Presses(g, CAPS_KEY)) <==> ((b < 0x80 && key == CAPS_KEY) != Odd(Presses(h, CAPS_KEY))))
            && (Odd(Presses(g, NUM_KEY)) <==> ((b < 0x80 && key == NUM_KEY) != Odd(Presses(h, NUM_KEY))))
            && (Odd(Presses(g, SCROLL_KEY)) <==> ((b < 0x80 && key == SCROLL_KEY) != Odd(Presses(h, SCROLL_KEY))))
  {
    hide Held, Presses;
    HeldNext(h, b, CTRL_KEYS);
    HeldNext(h, b, ALT_KEYS);
    HeldNext(h, b, SHIFT_KEYS);
    PressesNext(h, b, CAPS_KEY);
    PressesNext(h, b, NUM_KEY);
    PressesNext(h, b, SCROLL_KEY);
  }

  lemma TracksEscape(shift: bv8, h: seq<Byte>)
    requires Tracks(shift, h)
    ensures Tracks(shift | E0ESC, h + [E0])
  {
    GroupsNext(h, E0);
    hide Held, Presses, KeyAt;
  }

  lemma TracksBreak(shift: bv8, h: seq<Byte>, b: Byte)
    requires Tracks(shift, h) && b >= 0x80 && b != E0
    ensures Tracks(shift & !(ShiftCode(KeyAt(h + [b], |h|)) | E0ESC), h + [b])
  {
    GroupsNext(h, b);
    hide Held, Presses, KeyAt;
  }

  lemma TracksMake(shift: bv8, h: seq<Byte>, b: Byte)
    requires Tracks(shift, h) && b < 0x80
    ensures var key := KeyAt(h + [b], |h|);
            Tracks(((shift & !E0ESC) | ShiftCode(key)) ^ ToggleCode(key), h + [b])
  {
    GroupsNext(h, b);
    hide Held, Presses, KeyAt;
  }

  lemma EscapeSeen(shift: bv8, h: seq<Byte>, b: Byte)
    requires Tracks(shift, h)
    ensures KeyAt(h + [b], |h|) == b % 0x80 + (if shift & E0ESC != 0 then 0x80 else 0)
  {
  }

  /** What the machine tests in its state word. */
  lemma Reads(shift: bv8, h: seq<Byte>)
    requires Tracks(shift, h)
    ensures shift & CTL != 0 <==> Held(h, CTRL_KEYS)
    ensures shift & SHIFT != 0 <==> Held(h, SHIFT_KEYS)
    ensures shift & CAPSLOCK != 0 <==> Odd(Presses(h, CAPS_KEY))
    ensures !shift & (CTL | ALT) == 0 <==> Held(h, CTRL_KEYS) && Held(h, ALT_KEYS)
  {
    hide Held, Presses;
  }

  /** The state word after a release. */
  method Release(before: bv8, code: Byte) returns (shift: bv8)
    requires code >= 0x80
    ensures shift == before & !(ShiftCode(code % 0x80 + (if before & E0ESC != 0 then 0x80 else 0)) | E0ESC)
  {
    hide ShiftCode;
    var data: Byte := if before & E0ESC != 0 then code else code - 0x80;
    assert data == code % 0x80 + (if before & E0ESC != 0 then 0x80 else 0);
    shift := before & !(ShiftCode(data) | E0ESC);
  }

  /** The state word and the key's number after a press. */
  method Press(before: bv8, code: Byte) returns (shift: bv8, data: Byte)
    requires code < 0x80
    ensures data == code + (if before & E0ESC != 0 then 0x80 else 0)
    ensures shift == ((before & !E0ESC) | ShiftCode(data)) ^ ToggleCode(data)
  {
    hide ShiftCode, ToggleCode;
    shift, data := before, code;
    NoEscape(before);
    if shift & E0ESC != 0 {
      data := data + 0x80;
      shift := shift & !E0ESC;
    }
    shift := shift | ShiftCode(data);
    shift := shift ^ ToggleCode(data);
  }

  lemma NoEscape(shift: bv8)
    ensures shift & E0ESC == 0 ==> shift & !E0ESC == shift
  {
  }

  /** The character of a key and the test for the reboot keys, once the state word is up to date. */
  method Decode(shift: bv8, data: Byte) returns (c: int, reboot: bool)
    ensures c == Translate(data, shift & CTL != 0, shift & SHIFT != 0, shift & CAPSLOCK != 0)
    ensures reboot <==> !shift & (CTL | ALT) == 0 && data == 0xD3
  {
    hide NormalKey, ShiftKey, ControlKey;
    DeleteKey(data, shift & CTL != 0, shift & SHIFT != 0, shift & CAPSLOCK != 0);
    reboot := false;
    c := if shift & CTL != 0 then ControlKey(data) else if shift & SHIFT != 0 then ShiftKey(data) else NormalKey(data);
    if shift & CAPSLOCK != 0 {
      if 'a' as int <= c <= 'z' as int {
        c := c + ('A' as int - 'a' as int);
      } else if 'A' as int <= c <= 'Z' as int {
        c := c + ('a' as int - 'A' as int);
      }
    }
    if !shift & (CTL | ALT) == 0 && c == KEY_DEL {
      reboot := true;
    }
  }

  /** What a byte must give, once it is part of the history. */
  ghost predicate Answers(h: seq<Byte>, c: int, reboot: bool)
    requires h != []
  {
    var key := KeyAt(h, |h| - 1);
    if h[|h| - 1] >= 0x80 then c == 0 && !reboot
    else
      && c == Translate(key, Held(h, CTRL_KEYS), Held(h, SHIFT_KEYS), Odd(Presses(h, CAPS_KEY)))
      && (reboot <==> key == 0xD3 && Held(h, CTRL_KEYS) && Held(h, ALT_KEYS))
  }

  /** The key of the last byte: 0x80 further on after the byte 0xE0. */
  lemma LastKey(h: seq<Byte>)
    requires h != []
    ensures KeyAt(h, |h| - 1)
            == h[|h| - 1] % 0x80 + if |h| >= 2 && h[|h| - 2] == 0xE0 then 0x80 else 0
  {
  }

  /** The bits of the state word and the keys they stand for, by their numbers. */
  lemma StateWord(shift: bv8, h: seq<Byte>)
    requires Tracks(shift, h)
    ensures shift & 1 != 0 <==> Held(h, {0x2A, 0x36})
    ensures shift & 2 != 0 <==> Held(h, {0x1D, 0x9D})
    ensures shift & 4 != 0 <==> Held(h, {0x38, 0xB8})
    ensures shift & 8 != 0 <==> Presses(h, 0x3A) % 2 == 1
    ensures shift & 16 != 0 <==> Presses(h, 0x45) % 2 == 1
    ensures shift & 32 != 0 <==> Presses(h, 0x46) % 2 == 1
    ensures shift & 64 != 0 <==> h != [] && h[|h| - 1] == 0xE0
  {
    hide Held, Presses;
  }

  /**
   * What the machine answers, by scan codes: nothing for a release; letters by
   * what is held and by the presses of caps lock; and a reboot for the delete
   * key next to the arrows with a control and an alternate key held.
   */
  lemma AnswerMeaning(h: seq<Byte>, c: int, reboot: bool)
    requires h != [] && Answers(h, c, reboot)
    ensures h[|h| - 1] >= 0x80 ==> c == 0 && !reboot
    ensures reboot <==>
              && h[|h| - 1] == 0x53 && |h| >= 2 && h[|h| - 2] == 0xE0
              && Held(h, {0x1D, 0x9D}) && Held(h, {0x38, 0xB8})
    ensures var letter := NormalKey(KeyAt(h, |h| - 1));
            h[|h| - 1] < 0x80 && 0x61 <= letter <= 0x7a ==>
              c == if Held(h, {0x1D, 0x9D}) then letter - 0x60
                   else if Held(h, {0x2A, 0x36}) != (Presses(h, 0x3A) % 2 == 1) then letter - 0x20
                   else letter
    ensures var key := KeyAt(h, |h| - 1);
            h[|h| - 1] < 0x80 && !IsLower(NormalKey(key)) ==>
              c == if Held(h, {0x1D, 0x9D}) then ControlKey(key)
                   else if Held(h, {0x2A, 0x36}) then ShiftKey(key)
                   else NormalKey(key)
  {
    hide Held, Presses, NormalKey, ShiftKey, ControlKey, Translate;
    LastKey(h);
    var key := KeyAt(h, |h| - 1);
    var ctl, shift, caps := Held(h, CTRL_KEYS), Held(h, SHIFT_KEYS), Odd(Presses(h, CAPS_KEY));
    if IsLower(NormalKey(key)) {
      LetterCase(key, ctl, shift, caps);
    } else {
      CapsOnlyOnLetters(key, ctl, shift);
      WithoutCaps(key, ctl, shift);
    }
  }

  lemma WithoutCaps(key: Byte, ctl: bool, shift: bool)
    ensures Translate(key, ctl, shift, false)
            == if ctl then ControlKey(key) else if shift then ShiftKey(key) else NormalKey(key)
  {
  }

  lemma NoCharacter(h: seq<Byte>, data: Byte)
    requires data >= 0x80
    ensures Answers(h + [data], 0, false)
  {
    hide Held, Presses;
  }

  lemma AnswerOfPress(shift: bv8, h: seq<Byte>, data: Byte, c: int, reboot: bool)
    requires data < 0x80 && Tracks(shift, h + [data])
    requires var key := KeyAt(h + [data], |h|);
             && c == Translate(key, shift & CTL != 0, shift & SHIFT != 0, shift & CAPSLOCK != 0)
             && (reboot <==> !shift & (CTL | ALT) == 0 && key == 0xD3)
    ensures Answers(h + [data], c, reboot)
  {
    Reads(shift, h + [data]);
    hide Held, Presses, Tracks;
  }

  /** The body of `kbd_proc_data`, on one byte. */
  method Scan(before: bv8, data: Byte, ghost h: seq<Byte>) returns (shift: bv8, c: int, reboot: bool)
    requires Tracks(before, h)
    ensures Tracks(shift, h + [data]) && Answers(h + [data], c, reboot)
  {
    hide Tracks, Answers, KeyAt, ShiftCode, ToggleCode, Translate;
    shift, c, reboot := before, 0, false;
    if data == 0xE0 {
      TracksEscape(before, h);
      NoCharacter(h, data);
      shift := before | E0ESC;
    } else if data >= 0x80 {
      EscapeSeen(before, h, data);
      TracksBreak(before, h, data);
      NoCharacter(h, data);
      shift := Release(before, data);
    } else {
      EscapeSeen(before, h, data);
      TracksMake(before, h, data);
      var key;
      shift, key := Press(before, data);
      c, reboot := Decode(shift, key);
      AnswerOfPress(shift, h, data, c, reboot);
    }
  }

  class Controller {
    var shift: bv8
    ghost var history: seq<Byte>

    ghost predicate Valid()
      reads this
    {
      Tracks(shift, history)
    }

    constructor ()
      ensures Valid() && history == []
    {
      shift, history := 0, [];
    }

    /**
     * `kbd_proc_data`, on the byte at the port if there is one: -1 without one,
     * 0 if no character is finished, otherwise the character of the key.
     */
    method KbdProcData(port: Option<Byte>) returns (c: int, reboot: bool)
      requires Valid()
      modifies this
      ensures Valid()
      ensures port.None? ==> c == -1 && !reboot && history == old(history)
      ensures port.Some? ==> history == old(history) + [port.value] && Answers(history, c, reboot)
    {
      if port.None? {
        return -1, false;
      }
      shift, c, reboot := Scan(shift, port.value, history);
      history := history + [port.value];
    }
  }
}
