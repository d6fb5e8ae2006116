/** Digits, texts and 32-bit numbers: from_str_radix and the zero-padded formats. */
module NumberText {
  import opened Wrappers

  const U32: nat := 0x1_0000_0000

  function Lowercase(c: char): char {
    if 'A' <= c <= 'Z' then c - 'A' + 'a' else c
  }

  function CharDigit(c: char): Option<nat> {
    if '0' <= c <= '9' then Some(c as int - '0' as int)
    else if 'a' <= c <= 'f' then Some(c as int - 'a' as int + 10)
    else if 'A' <= c <= 'F' then Some(c as int - 'A' as int + 10)
    else None
  }

  /** NumberEditView::is_valid. */
  predicate IsValid(base: nat, c: char) {
    base in {2, 10, 16} && CharDigit(c).Some? && CharDigit(c).value < base
  }

  predicate AllValid(base: nat, s: string) {
    forall i :: 0 <= i < |s| ==> IsValid(base, s[i])
  }

  /** The number a text denotes. */
  function Value(s: string, base: nat): nat
    requires AllValid(base, s)
  {
    if s == "" then 0 else Value(s[..|s| - 1], base) * base + CharDigit(s[|s| - 1]).value
  }

  /** u32::from_str_radix for the bases 2, 10 and 16. */
  function Parse(s: string, base: nat): Option<nat> {
    var digits := if |s| > 1 && s[0] == '+' then s[1..] else s;
    if digits == "" || !AllValid(base, digits) then None
    else if Value(digits, base) < U32 then Some(Value(digits, base)) else None
  }

  function Pow(base: nat, n: nat): nat {
    if n == 0 then 1 else base * Pow(base, n - 1)
  }

  function DigitChar(d: nat): char
    requires d < 16
  {
    "0123456789abcdef"[d]
  }

  /** The lowest `n` digits of a number. */
  function Format(v: nat, base: nat, n: nat): (s: string)
    requires base in {2, 10, 16}
    ensures |s| == n
  {
    if n == 0 then "" else Format(v / base, base, n - 1) + [DigitChar(v % base)]
  }

  lemma DigitBack(d: nat, base: nat)
    requires base in {2, 10, 16} && d < base
    ensures CharDigit(DigitChar(d)) == Some(d) && IsValid(base, DigitChar(d))
  {
  }

  lemma {:induction false} ValueBound(s: string, base: nat)
    requires AllValid(base, s)
    ensures Value(s, base) < Pow(base, |s|)
    decreases s
  {
    if s != "" {
      var init, d := s[..|s| - 1], CharDigit(s[|s| - 1]).value;
      ValueBound(init, base);
      assert IsValid(base, s[|s| - 1]);
      Horner(Value(init, base), d, base, Pow(base, |init|));
    }
  }

  lemma Horner(v: nat, d: nat, base: nat, p: nat)
    requires d < base && v < p
    ensures v * base + d < base * p
  {
    assert (v + 1) * base <= p * base;
  }

  lemma {:induction false} PowGrows(base: nat, m: nat, n: nat)
    requires base > 0 && m <= n
    ensures 0 < Pow(base, m) <= Pow(base, n)
    decreases n
  {
    if m < n {
      PowGrows(base, m, n - 1);
    } else if m > 0 {
      PowGrows(base, m - 1, n - 1);
    }
  }

  lemma LastDigit(v: nat, base: nat, p: nat)
    requires base in {2, 10, 16} && v < base * p
    ensures v / base < p && (v / base) * base + v % base == v
  {
    assert base == 2 || base == 10 || base == 16;
  }

  lemma ValueSnoc(init: string, c: char, base: nat)
    requires AllValid(base, init) && IsValid(base, c)
    ensures AllValid(base, init + [c])
    ensures Value(init + [c], base) == Value(init, base) * base + CharDigit(c).value
  {
    assert (init + [c])[..|init|] == init;
  }

  /** A formatted number reads back. */
  lemma {:induction false} FormatBack(v: nat, base: nat, n: nat)
    requires base in {2, 10, 16} && v < Pow(base, n)
    ensures AllValid(base, Format(v, base, n)) && Value(Format(v, base, n), base) == v
    decreases n
  {
    if n > 0 {
      LastDigit(v, base, Pow(base, n - 1));
      FormatBack(v / base, base, n - 1);
      DigitBack(v % base, base);
      ValueSnoc(Format(v / base, base, n - 1), DigitChar(v % base), base);
    }
  }

  /** The character is a hexadecimal digit for `d`, in either case. */
  predicate IsDigit(c: char, d: nat) {
    d < 16 && (c == "0123456789abcdef"[d] || c == "0123456789ABCDEF"[d])
  }

  lemma CharDigitIff(c: char, d: nat)
    ensures CharDigit(c) == Some(d) <==> IsDigit(c, d)
    ensures IsDigit(c, d) ==> Lowercase(c) == "0123456789abcdef"[d]
  {
  }

  /** A number is shown in digits of the base, in lower case. */
  lemma {:induction false} FormatDigits(v: nat, base: nat, n: nat, i: nat)
    requires base in {2, 10, 16} && i < n
    ensures exists d :: 0 <= d < base && Format(v, base, n)[i] == "0123456789abcdef"[d]
  {
    if i < n - 1 {
      FormatDigits(v / base, base, n - 1, i);
    } else {
      assert Format(v, base, n)[i] == "0123456789abcdef"[v % base];
    }
  }

  function Digits(base: nat): nat {
    if base == 16 then 8 else 32
  }

  lemma WidthsFit()
    ensures Pow(16, 8) == U32 && Pow(2, 32) == U32
  {
    assert Pow(16, 4) == 0x1_0000;
    assert Pow(2, 4) == 0x10;
    assert Pow(2, 8) == 0x100;
    assert Pow(2, 12) == 0x1000;
    assert Pow(2, 16) == 0x1_0000;
    assert Pow(2, 20) == 0x10_0000;
    assert Pow(2, 24) == 0x100_0000;
    assert Pow(2, 28) == 0x1000_0000;
  }

  /** A sign in front changes nothing, and a number of more than 32 bits does not parse. */
  lemma ParseSigned(digits: string, base: nat)
    requires base in {2, 10, 16} && AllValid(base, digits) && digits != ""
    ensures Parse(digits, base) == if Value(digits, base) < 0x1_0000_0000 then Some(Value(digits, base)) else None
    ensures Parse("+" + digits, base) == Parse(digits, base)
  {
    assert ("+" + digits)[1..] == digits;
    assert IsValid(base, digits[0]);
  }

  /** Parsing a text of valid digits that fits its width fails exactly when the text is empty. */
  lemma ParseIff(s: string, base: nat)
    requires base in {2, 16} && AllValid(base, s) && |s| <= Digits(base)
    ensures Parse(s, base) == if s == "" then None else Some(Value(s, base))
    ensures Value(s, base) < U32
  {
    ValueBound(s, base);
    PowGrows(base, |s|, Digits(base));
    WidthsFit();
    assert s != "" ==> IsValid(base, s[0]);
  }
}

/**
  The number editor and the paired hexadecimal and binary editors of a register
  (src/bin/tbman/views.rs: NumberEditView; src/bin/tbman/app.rs: edit_register, update_register and
  the set-up in view_register).
 */
module NumberEdit {
  import opened Wrappers
  import opened NumberText

  // ---------- One editor ----------

  datatype Edit = Edit(base: nat, content: string, cursor: nat, width: Option<nat>)

  datatype Event = Char(c: char) | Left | Right | Home | End | Backspace | Del | OtherEvent

  /** `edited`: the on_edit callback is called. */
  datatype Result = Ignored | Consumed(edited: bool)

  /** The cursor is in the text, and the text has only digits of the base and fits the width. */
  predicate ValidEdit(e: Edit) {
    && e.cursor <= |e.content| && AllValid(e.base, e.content)
    && (e.width.Some? ==> |e.content| <= e.width.value)
  }

  function InsertChar(e: Edit, c: char): (Edit, Result)
    requires e.cursor <= |e.content|
  {
    if e.width.Some? && e.width.value <= |e.content| then (e, Consumed(false))
    else if IsValid(e.base, Lowercase(c)) then
      var content := e.content[..e.cursor] + [Lowercase(c)] + e.content[e.cursor..];
      (e.(content := content, cursor := e.cursor + 1), Consumed(true))
    else (e, Ignored)
  }

  function RemoveChar(e: Edit, offset: nat): (Edit, Result)
    requires offset <= e.cursor && e.cursor - offset < |e.content|
  {
    var at := e.cursor - offset;
    (e.(content := e.content[..at] + e.content[at + 1..], cursor := at), Consumed(true))
  }

  function OnEvent(e: Edit, ev: Event): (Edit, Result)
    requires e.cursor <= |e.content|
  {
    match ev
    case Char(c) => InsertChar(e, c)
    case Left => if e.cursor > 0 then (e.(cursor := e.cursor - 1), Consumed(false)) else (e, Ignored)
    case Right => if e.cursor < |e.content| then (e.(cursor := e.cursor + 1), Consumed(false)) else (e, Ignored)
    case Home => (e.(cursor := 0), Consumed(false))
    case End => (e.(cursor := |e.content|), Consumed(false))
    case Backspace => if e.cursor > 0 then RemoveChar(e, 1) else (e, Ignored)
    case Del => if e.cursor < |e.content| then RemoveChar(e, 0) else (e, Ignored)
    case OtherEvent => (e, Ignored)
  }

  lemma EventKeepsValid(e: Edit, ev: Event)
    requires ValidEdit(e)
    ensures ValidEdit(OnEvent(e, ev).0)
    ensures OnEvent(e, ev).0.base == e.base && OnEvent(e, ev).0.width == e.width
  {
  }

  /** The callback is called exactly when the text changes. */
  lemma CallbackIff(e: Edit, ev: Event)
    requires e.cursor <= |e.content|
    ensures OnEvent(e, ev).1 == Consumed(true) <==> OnEvent(e, ev).0.content != e.content
  {
    if OnEvent(e, ev).1 == Consumed(true) {
      assert |OnEvent(e, ev).0.content| != |e.content|;
    }
  }

  /** Typing a digit of the base puts it, in lower case, at the cursor if there is room; nothing else is inserted. */
  lemma TypedDigit(e: Edit, c: char)
    requires e.cursor <= |e.content| && e.base in {2, 10, 16}
    ensures var room := e.width == None || |e.content| < e.width.value;
      && (!room ==> OnEvent(e, Char(c)) == (e, Consumed(false)))
      && (room ==> forall d :: 0 <= d < e.base && IsDigit(c, d) ==>
            OnEvent(e, Char(c)) ==
              (e.(content := e.content[..e.cursor] + ["0123456789abcdef"[d]] + e.content[e.cursor..],
                  cursor := e.cursor + 1), Consumed(true)))
      && (room && (forall d :: 0 <= d < e.base ==> !IsDigit(c, d)) ==> OnEvent(e, Char(c)) == (e, Ignored))
  {
    forall d: nat | d < 16
      ensures CharDigit(c) == Some(d) <==> IsDigit(c, d)
      ensures CharDigit(Lowercase(c)) == Some(d) <==> IsDigit(Lowercase(c), d)
      ensures IsDigit(c, d) <==> IsDigit(Lowercase(c), d)
      ensures IsDigit(c, d) ==> Lowercase(c) == "0123456789abcdef"[d]
    {
      CharDigitIff(c, d);
      CharDigitIff(Lowercase(c), d);
      LowercaseDigit(c, d);
    }
    DigitBelow(Lowercase(c));
  }

  lemma LowercaseDigit(c: char, d: nat)
    ensures IsDigit(c, d) <==> IsDigit(Lowercase(c), d)
  {
    CharDigitIff(c, d);
    CharDigitIff(Lowercase(c), d);
  }

  lemma DigitBelow(c: char)
    ensures CharDigit(c).Some? ==> CharDigit(c).value < 16
  {
  }

  /** Backspace takes back an inserted character. */
  lemma BackspaceUndoes(e: Edit, c: char)
    requires e.cursor <= |e.content| && OnEvent(e, Char(c)).1 == Consumed(true)
    ensures OnEvent(OnEvent(e, Char(c)).0, Backspace) == (e, Consumed(true))
  {
    var typed := OnEvent(e, Char(c)).0;
    assert typed.content[..e.cursor] + typed.content[e.cursor + 1..] == e.content;
  }

  function SetContentOf(e: Edit, text: string): Edit {
    e.(content := text, cursor := |text|)
  }

  // ---------- The paired editors ----------

  /** `enabled`: the Update button can be pressed. */
  datatype Dialog = Dialog(hex: Edit, bin: Edit, enabled: bool)

  datatype Key = Key(onHex: bool, event: Event)

  /** view_register. */
  function Opened(value: nat): Dialog
    requires value < U32
  {
    Dialog(
      SetContentOf(Edit(16, "", 0, Some(8)), Format(value, 16, 8)),
      SetContentOf(Edit(2, "", 0, Some(32)), Format(value, 2, 32)), false)
  }

  /** edit_register: a text that parses is shown in the other editor and enables Update. */
  function EditRegister(d: Dialog, text: string, base: nat): Dialog {
    match Parse(text, base)
    case None => d.(enabled := false)
    case Some(v) =>
      if base == 2 then d.(hex := SetContentOf(d.hex, Format(v, 16, 8)), enabled := true)
      else d.(bin := SetContentOf(d.bin, Format(v, 2, 32)), enabled := true)
  }

  predicate Shaped(d: Dialog) {
    && d.hex.base == 16 && d.hex.width == Some(8) && ValidEdit(d.hex)
    && d.bin.base == 2 && d.bin.width == Some(32) && ValidEdit(d.bin)
  }

  function Press(d: Dialog, k: Key): Dialog
    requires Shaped(d)
  {
    var (e, r) := OnEvent(if k.onHex then d.hex else d.bin, k.event);
    var typed := if k.onHex then d.(hex := e) else d.(bin := e);
    if r == Consumed(true) then EditRegister(typed, e.content, e.base) else typed
  }

  /** Both texts denote the 32-bit number. */
  predicate Shows(d: Dialog, v: nat)
    requires Shaped(d)
  {
    v < U32 && d.hex.content != "" && d.bin.content != "" && Value(d.hex.content, 16) == v == Value(d.bin.content, 2)
  }

  /** Whenever Update is enabled both texts denote the same 32-bit number. */
  predicate Inv(d: Dialog) {
    Shaped(d) && (d.enabled ==> Shows(d, Value(d.hex.content, 16)))
  }

  lemma FormatFits(v: nat)
    requires v < U32
    ensures AllValid(16, Format(v, 16, 8)) && Value(Format(v, 16, 8), 16) == v
    ensures AllValid(2, Format(v, 2, 32)) && Value(Format(v, 2, 32), 2) == v
  {
    WidthsFit();
    FormatBack(v, 16, 8);
    FormatBack(v, 2, 32);
  }

  /** The editors start out with the value of the register. */
  lemma OpenedShows(value: nat)
    requires value < U32
    ensures Inv(Opened(value)) && Shows(Opened(value), value)
  {
    FormatFits(value);
  }

  /** After an edit Update is disabled exactly when the text is empty; else both editors show its value. */
  lemma EditRegisterShows(d: Dialog, onHex: bool)
    requires Shaped(d)
    ensures var e := if onHex then d.hex else d.bin;
      var after := EditRegister(d, e.content, e.base);
      && Inv(after) && (after.enabled <==> e.content != "")
      && (after.enabled ==> Shows(after, Value(e.content, e.base)))
  {
    var e := if onHex then d.hex else d.bin;
    ParseIff(e.content, e.base);
    FormatFits(Value(e.content, e.base));
  }

  lemma PressKeepsInv(d: Dialog, k: Key)
    requires Inv(d)
    ensures Inv(Press(d, k))
  {
    var focused := if k.onHex then d.hex else d.bin;
    EventKeepsValid(focused, k.event);
    CallbackIff(focused, k.event);
    var e := OnEvent(focused, k.event).0;
    var typed := if k.onHex then d.(hex := e) else d.(bin := e);
    EditRegisterShows(typed, k.onHex);
  }

  // ---------- Whole runs ----------

  /** The dialog after some keys, opened on a register. */
  function Run(value: nat, keys: seq<Key>): (d: Dialog)
    requires value < U32
    ensures Inv(d)
  {
    if keys == [] then OpenedShows(value); Opened(value)
    else
      var before := Run(value, keys[..|keys| - 1]);
      PressKeepsInv(before, keys[|keys| - 1]);
      Press(before, keys[|keys| - 1])
  }

  datatype Edited = Edited(text: string, base: nat)

  /** What the last call of edit_register was given, if there was one. */
  function LastEdited(value: nat, keys: seq<Key>): (r: Option<Edited>)
    requires value < U32
  {
    if keys == [] then None
    else
      var before, k := Run(value, keys[..|keys| - 1]), keys[|keys| - 1];
      var (e, r) := OnEvent(if k.onHex then before.hex else before.bin, k.event);
      if r == Consumed(true) then Some(Edited(e.content, e.base)) else LastEdited(value, keys[..|keys| - 1])
  }

  /** util::parse_hex. */
  function ParseHex(s: string): Option<nat> {
    Parse(if |s| >= 2 && s[..2] == "0x" then s[2..] else s, 16)
  }

  /** update_register: the number given to the register, if the button can be pressed. */
  function Written(d: Dialog): Option<nat> {
    if d.enabled then ParseHex(d.hex.content) else None
  }

  lemma WrittenIsShown(d: Dialog, v: nat)
    requires Shaped(d) && d.enabled && Shows(d, v)
    ensures Written(d) == Some(v)
  {
    ParseIff(d.hex.content, 16);
    assert |d.hex.content| >= 2 ==> IsValid(16, d.hex.content[1]);
  }

  /** What a key does to the enabled state and the number shown. */
  lemma PressShows(d: Dialog, k: Key)
    requires Inv(d)
    ensures var (e, r) := OnEvent(if k.onHex then d.hex else d.bin, k.event);
      var after := Press(d, k);
      && (r != Consumed(true) ==>
            after.enabled == d.enabled && after.hex.content == d.hex.content && after.bin.content == d.bin.content)
      && (r == Consumed(true) ==>
            (after.enabled <==> e.content != "") && AllValid(e.base, e.content)
            && (after.enabled ==> Shaped(after) && Shows(after, Value(e.content, e.base))))
  {
    var focused := if k.onHex then d.hex else d.bin;
    EventKeepsValid(focused, k.event);
    CallbackIff(focused, k.event);
    var e := OnEvent(focused, k.event).0;
    var typed := if k.onHex then d.(hex := e) else d.(bin := e);
    EditRegisterShows(typed, k.onHex);
  }

  /** Update can be pressed exactly when the last edit left a text; then both editors show the number of that text. */
  lemma {:induction false} RunShowsLastEdit(value: nat, keys: seq<Key>)
    requires value < U32
    ensures var d, last := Run(value, keys), LastEdited(value, keys);
      && (d.enabled <==> last.Some? && last.value.text != "")
      && (d.enabled ==> AllValid(last.value.base, last.value.text) && Shows(d, Value(last.value.text, last.value.base)))
    decreases keys
  {
    if keys != [] {
      var init, k := keys[..|keys| - 1], keys[|keys| - 1];
      RunShowsLastEdit(value, init);
      PressShows(Run(value, init), k);
    }
  }

  /** What Update writes after any run of keys. */
  lemma UpdateWritesLastEdit(value: nat, keys: seq<Key>)
    requires value < U32
    ensures var d, last := Run(value, keys), LastEdited(value, keys);
      && (Written(d).Some? <==> last.Some? && last.value.text != "")
      && (Written(d).Some? ==> AllValid(last.value.base, last.value.text))
      && (Written(d).Some? ==> Written(d).value == Value(last.value.text, last.value.base) < U32)
  {
    RunShowsLastEdit(value, keys);
    var d, last := Run(value, keys), LastEdited(value, keys);
    if d.enabled {
      WrittenIsShown(d, Value(last.value.text, last.value.base));
    }
  }

  // ---------- The views, updated in place ----------

  class NumberEditView {
    const base: nat
    var content: string
    var cursor: nat
    var maxContentWidth: Option<nat>

    constructor (base: nat, content: string, maxContentWidth: Option<nat>)
      requires AllValid(base, content)
      ensures State() == SetContentOf(Edit(base, "", 0, maxContentWidth), content)
    {
      this.base, this.content, this.cursor, this.maxContentWidth := base, content, |content|, maxContentWidth;
    }

    function State(): Edit
      reads this
    {
      Edit(base, content, cursor, maxContentWidth)
    }

    /** Panics for a content with an invalid digit. */
    method SetContent(text: string)
      requires AllValid(base, text)
      modifies this
      ensures State() == SetContentOf(old(State()), text)
    {
      content := text;
      cursor := |text|;
    }

    method Insert(c: char) returns (r: Result)
      requires cursor <= |content|
      modifies this
      ensures (State(), r) == InsertChar(old(State()), c)
    {
      if maxContentWidth.Some? && |content| >= maxContentWidth.value {
        return Consumed(false);
      }
      var ch := Lowercase(c);
      if IsValid(base, ch) {
        content := content[..cursor] + [ch] + content[cursor..];
        cursor := cursor + 1;
        return Consumed(true);
      }
      return Ignored;
    }

    method Remove(offset: nat) returns (r: Result)
      requires offset <= cursor && cursor - offset < |content|
      modifies this
      ensures (State(), r) == RemoveChar(old(State()), offset)
    {
      content := content[..cursor - offset] + content[cursor - offset + 1..];
      cursor := cursor - offset;
      return Consumed(true);
    }

    method HandleEvent(ev: Event) returns (r: Result)
      requires ValidEdit(State())
      modifies this
      ensures (State(), r) == OnEvent(old(State()), ev)
    {
      match ev {
        case Char(c) => r := Insert(c);
        case Left =>
          if cursor == 0 {
            return Ignored;
          }
          cursor := cursor - 1;
          r := Consumed(false);
        case Right =>
          if cursor >= |content| {
            return Ignored;
          }
          cursor := cursor + 1;
          r := Consumed(false);
        case Home =>
          cursor := 0;
          r := Consumed(false);
        case End =>
          cursor := |content|;
          r := Consumed(false);
        case Backspace =>
          if cursor == 0 {
            return Ignored;
          }
          r := Remove(1);
        case Del =>
          if cursor >= |content| {
            return Ignored;
          }
          r := Remove(0);
        case OtherEvent => r := Ignored;
      }
    }
  }

  /** The dialog of a writable register; `register` is the copy in the list and `device` the cached register. */
  class RegisterDialog {
    const hex: NumberEditView
    const bin: NumberEditView
    var updateEnabled: bool
    var register: nat
    var device: nat

    constructor (value: nat)
      requires value < U32
      ensures fresh(hex) && fresh(bin) && hex != bin
      ensures State() == Opened(value) && register == value == device
    {
      FormatFits(value);
      hex := new NumberEditView(16, Format(value, 16, 8), Some(8));
      bin := new NumberEditView(2, Format(value, 2, 32), Some(32));
      updateEnabled, register, device := false, value, value;
    }

    function State(): Dialog
      reads this, hex, bin
    {
      Dialog(hex.State(), bin.State(), updateEnabled)
    }

    method EditRegisterText(text: string, base: nat)
      requires hex != bin && hex.base == 16 && bin.base == 2
      modifies this`updateEnabled, hex, bin
      ensures State() == EditRegister(old(State()), text, base)
    {
      var value := Parse(text, base);
      if value == None {
        updateEnabled := false;
        return;
      }
      FormatFits(value.value);
      updateEnabled := true;
      if base == 2 {
        hex.SetContent(Format(value.value, 16, 8));
      } else {
        bin.SetContent(Format(value.value, 2, 32));
      }
    }

    method PressKey(k: Key)
      requires hex != bin && Inv(State())
      modifies this`updateEnabled, hex, bin
      ensures State() == Press(old(State()), k) && Inv(State())
    {
      PressKeepsInv(State(), k);
      var focused := if k.onHex then hex else bin;
      var r := focused.HandleEvent(k.event);
      if r == Consumed(true) {
        EditRegisterText(focused.content, focused.base);
      }
    }

    /** Pressing Update; a disabled button does nothing. */
    method UpdateRegister()
      requires hex != bin && Inv(State())
      modifies this`register, this`device
      ensures updateEnabled ==> Shows(State(), register) && device == register
      ensures !updateEnabled ==> register == old(register) && device == old(device)
    {
      if !updateEnabled {
        return;
      }
      WrittenIsShown(State(), Value(hex.content, 16));
      var value := ParseHex(hex.content);
      if value.Some? {
        device := value.value;
        register := value.value;
      }
    }
  }
}
