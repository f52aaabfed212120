/**
  Keyboard input: single keys, and the hexadecimal prompt with backspace, cancel and
  a digit limit.
 */
module HexInput {
  import opened Words
  import opened Text

  datatype Key = Key(scanCode: nat, unicodeChar: char)

  const SCAN_UP: nat := 0x01
  const SCAN_DOWN: nat := 0x02
  const SCAN_RIGHT: nat := 0x03
  const SCAN_LEFT: nat := 0x04
  const SCAN_ESC: nat := 0x17
  const CHAR_CARRIAGE_RETURN: char := '\r'
  const CHAR_BACKSPACE: char := 8 as char
  const ENTER_KEY := Key(0, CHAR_CARRIAGE_RETURN)

  /** Length of the prompt's digit buffer. */
  const BUFFER_LENGTH: nat := 32

  /** How a prompt ends: with a value, by cancelling, or not yet because no further key has arrived. */
  datatype HexEntry = Entered(value: u64, rest: seq<Key>) | Cancelled(rest: seq<Key>) | Waiting

  predicate EndsPrompt(k: Key) {
    k.scanCode == SCAN_ESC || k.unicodeChar == CHAR_CARRIAGE_RETURN
  }

  /** The digits in the buffer after one more key. */
  function TypeKey(text: string, c: char, max: nat): (r: string)
    requires AllHex(text)
    ensures AllHex(r) && (|text| <= max ==> |r| <= max)
  {
    if IsHexDigit(c) then (if |text| < max then text + [c] else text)
    else if c == CHAR_BACKSPACE && |text| > 0 then text[..|text| - 1]
    else text
  }

  /** The digits that survive backspaces and the length limit. */
  function Surviving(keys: seq<Key>, max: nat): (r: string)
    ensures AllHex(r) && |r| <= max
  {
    if keys == [] then ""
    else TypeKey(Surviving(keys[..|keys| - 1], max), keys[|keys| - 1].unicodeChar, max)
  }

  function Limit(maxDigits: nat): nat {
    if maxDigits >= BUFFER_LENGTH then BUFFER_LENGTH - 1 else maxDigits
  }

  /** The library's hex conversion: the number, or the largest word when it does not fit. */
  function HexToWord(s: string): u64
    requires AllHex(s)
  {
    if ParseHex(s) > MAX_UINT64 then MAX_UINT64 else ParseHex(s)
  }

  function HexPromptFrom(keys: seq<Key>, max: nat, text: string): HexEntry
    requires AllHex(text)
  {
    if keys == [] then Waiting
    else if keys[0].scanCode == SCAN_ESC then Cancelled(keys[1..])
    else if keys[0].unicodeChar == CHAR_CARRIAGE_RETURN then Entered(HexToWord(text), keys[1..])
    else HexPromptFrom(keys[1..], max, TypeKey(text, keys[0].unicodeChar, max))
  }

  function HexPrompt(keys: seq<Key>, maxDigits: nat): HexEntry {
    HexPromptFrom(keys, Limit(maxDigits), "")
  }

  // ------------------------------------------------------------- what is read

  lemma {:induction false} PromptAfter(typed: seq<Key>, keys: seq<Key>, max: nat)
    requires forall i :: 0 <= i < |typed| ==> !EndsPrompt(typed[i])
    ensures HexPromptFrom(typed + keys, max, "") == HexPromptFrom(keys, max, Surviving(typed, max))
    decreases |typed|
  {
    if typed == [] {
      assert typed + keys == keys;
    } else {
      var n := |typed| - 1;
      var front, tail := typed[..n], [typed[n]] + keys;
      PromptAfter(front, tail, max);
      assert front + tail == typed + keys;
      assert tail[0] == typed[n] && tail[1..] == keys;
      assert !EndsPrompt(tail[0]);
    }
  }

  lemma PromptAt(typed: seq<Key>, last: Key, rest: seq<Key>, max: nat)
    requires forall i :: 0 <= i < |typed| ==> !EndsPrompt(typed[i])
    ensures HexPromptFrom(typed + [last] + rest, max, "") == HexPromptFrom([last] + rest, max, Surviving(typed, max))
  {
    PromptAfter(typed, [last] + rest, max);
    assert typed + [last] + rest == typed + ([last] + rest);
  }

  /** Enter delivers the number of the surviving digits; Escape delivers nothing; otherwise the prompt waits. */
  lemma PromptMeaning(typed: seq<Key>, last: Key, rest: seq<Key>, maxDigits: nat)
    requires forall i :: 0 <= i < |typed| ==> !EndsPrompt(typed[i])
    ensures HexPrompt(typed, maxDigits) == Waiting
    ensures last.scanCode == SCAN_ESC ==> HexPrompt(typed + [last] + rest, maxDigits) == Cancelled(rest)
    ensures last.scanCode != SCAN_ESC && last.unicodeChar == CHAR_CARRIAGE_RETURN ==>
              HexPrompt(typed + [last] + rest, maxDigits) == Entered(HexToWord(Surviving(typed, Limit(maxDigits))), rest)
  {
    var max := Limit(maxDigits);
    assert HexPrompt(typed, maxDigits) == Waiting by {
      PromptAfter(typed, [], max);
      assert typed + [] == typed;
    }
    PromptAt(typed, last, rest, max);
    var tail := [last] + rest;
    assert tail[0] == last && tail[1..] == rest;
  }

  /** Every value a prompt delivers is below 16^maxDigits. */
  lemma {:induction false} PromptBound(keys: seq<Key>, max: nat, text: string)
    requires AllHex(text) && |text| <= max
    ensures var e := HexPromptFrom(keys, max, text);
            && (e.Entered? ==> e.value < Pow16(max) && |e.rest| < |keys|)
            && (e.Cancelled? ==> |e.rest| < |keys|)
    decreases |keys|
  {
    if keys != [] && !EndsPrompt(keys[0]) {
      PromptBound(keys[1..], max, TypeKey(text, keys[0].unicodeChar, max));
    } else {
      ParseHexBound(text);
      Pow16Monotone(|text|, max);
    }
  }

  /** Backspace undoes the digit before it exactly when that digit was not dropped by the limit. */
  lemma BackspaceUndoes(typed: seq<Key>, digit: Key, erase: Key, max: nat)
    requires IsHexDigit(digit.unicodeChar) && erase.unicodeChar == CHAR_BACKSPACE && max > 0
    ensures Surviving(typed + [digit, erase], max) == Surviving(typed, max) <==> |Surviving(typed, max)| < max
  {
    assert typed + [digit, erase] == typed + [digit] + [erase];
    OneMoreKey(typed, digit, max);
    OneMoreKey(typed + [digit], erase, max);
    hide Surviving;
    hide IsHexDigit;
    var text := Surviving(typed, max);
    if |text| < max {
      assert (text + [digit.unicodeChar])[..|text|] == text;
    }
  }

  lemma OneMoreKey(typed: seq<Key>, k: Key, max: nat)
    ensures Surviving(typed + [k], max) == TypeKey(Surviving(typed, max), k.unicodeChar, max)
  {
    assert (typed + [k])[..|typed|] == typed;
  }

  function KeysOf(s: string): (keys: seq<Key>)
    ensures |keys| == |s|
    ensures forall i :: 0 <= i < |s| ==> keys[i].unicodeChar == s[i] && keys[i].scanCode == 0
  {
    seq(|s|, i requires 0 <= i < |s| => Key(0, s[i]))
  }

  /** Of digits typed in a row the first `max` survive. */
  lemma {:induction false} SurvivingDigits(s: string, max: nat)
    requires AllHex(s)
    ensures Surviving(KeysOf(s), max) == if |s| <= max then s else s[..max]
  {
    if s != "" {
      var n := |s| - 1;
      SurvivingDigits(s[..n], max);
      assert KeysOf(s)[..n] == KeysOf(s[..n]);
    }
  }

  /** A key that is neither a digit nor a backspace leaves the typed digits alone, and so does a backspace without digits. */
  lemma {:induction false} OtherKeysAreIgnored(before: seq<Key>, k: Key, after: seq<Key>, max: nat)
    requires k.unicodeChar !in "0123456789abcdefABCDEF"
    requires k.unicodeChar == CHAR_BACKSPACE ==> Surviving(before, max) == ""
    ensures Surviving(before + [k] + after, max) == Surviving(before + after, max)
  {
    if after == [] {
      assert before + [k] + after == before + [k] && before + after == before;
      OneMoreKey(before, k, max);
      if IsHexDigit(k.unicodeChar) {
        HexDigitsAre(k.unicodeChar);
      }
      hide IsHexDigit;
      hide Surviving;
    } else {
      var n := |after| - 1;
      OtherKeysAreIgnored(before, k, after[..n], max);
      OneMoreKey(before + [k] + after[..n], after[n], max);
      OneMoreKey(before + after[..n], after[n], max);
      assert before + [k] + after == before + [k] + after[..n] + [after[n]];
      assert before + after == before + after[..n] + [after[n]];
      hide Surviving;
      hide TypeKey;
    }
  }

  lemma HexDigitsAre(c: char)
    requires IsHexDigit(c)
    ensures c in "0123456789abcdefABCDEF"
  {
    var all := "0123456789abcdefABCDEF";
    if '0' <= c <= '9' {
      assert all[c as int - '0' as int] == c;
    } else if 'a' <= c <= 'f' {
      assert all[10 + (c as int - 'a' as int)] == c;
    } else if 'A' <= c <= 'F' {
      assert all[16 + (c as int - 'A' as int)] == c;
    }
  }

  function LowerCase(s: string): (r: string)
    ensures |r| == |s|
  {
    seq(|s|, i requires 0 <= i < |s| => if 'A' <= s[i] <= 'Z' then (s[i] as int + 32) as char else s[i])
  }

  lemma {:induction false} LowerCaseValue(s: string)
    requires AllHex(s)
    ensures AllHex(LowerCase(s)) && ParseHex(LowerCase(s)) == ParseHex(s)
  {
    assert AllHex(LowerCase(s)) by {
      forall i | 0 <= i < |s|
        ensures IsHexDigit(LowerCase(s)[i])
      {
        assert IsHexDigit(s[i]);
      }
    }
    if s != "" {
      var n := |s| - 1;
      LowerCaseValue(s[..n]);
      assert LowerCase(s)[..n] == LowerCase(s[..n]);
    }
  }

  /** Typing the digits of a number and Enter delivers the number. */
  lemma TypingDigits(s: string, rest: seq<Key>, maxDigits: nat)
    requires AllHex(s) && |s| <= Limit(maxDigits) && ParseHex(s) <= MAX_UINT64
    ensures HexPrompt(KeysOf(s) + [ENTER_KEY] + rest, maxDigits) == Entered(ParseHex(s), rest)
  {
    var keys := KeysOf(s);
    assert forall i :: 0 <= i < |keys| ==> IsHexDigit(keys[i].unicodeChar);
    PromptMeaning(keys, ENTER_KEY, rest, maxDigits);
    SurvivingDigits(s, Limit(maxDigits));
  }

  /** So do the same digits in lower case. */
  lemma TypingLowerCase(s: string, rest: seq<Key>, maxDigits: nat)
    requires AllHex(s) && |s| <= Limit(maxDigits) && ParseHex(s) <= MAX_UINT64
    ensures HexPrompt(KeysOf(LowerCase(s)) + [ENTER_KEY] + rest, maxDigits) == Entered(ParseHex(s), rest)
  {
    LowerCaseValue(s);
    TypingDigits(LowerCase(s), rest, maxDigits);
  }

  // ------------------------------------------------------------- the keyboard

  class Keyboard {
    /** Keys that have arrived and are not read yet. */
    var pending: seq<Key>

    constructor (keys: seq<Key>)
      ensures pending == keys
    {
      pending := keys;
    }

    /** Take the next key; `waiting` when none has arrived. */
    method ReadKey() returns (key: Key, waiting: bool)
      modifies this
      ensures waiting == (old(pending) == [])
      ensures waiting ==> pending == old(pending)
      ensures !waiting ==> key == old(pending)[0] && pending == old(pending)[1..]
    {
      key, waiting := ENTER_KEY, pending == [];
      if !waiting {
        key := pending[0];
        pending := pending[1..];
      }
    }

    method ReadHex(maxDigits: nat) returns (ok: bool, value: u64, waiting: bool)
      modifies this
      ensures var entry := HexPrompt(old(pending), maxDigits);
              && waiting == entry.Waiting?
              && ok == entry.Entered?
              && (ok ==> value == entry.value && pending == entry.rest)
              && (entry.Cancelled? ==> pending == entry.rest)
              && (waiting ==> pending == [])
    {
      var buffer := new char[BUFFER_LENGTH];
      var index := 0;
      var max := if maxDigits >= buffer.Length then buffer.Length - 1 else maxDigits;
      value := 0;
      while true
        invariant 0 <= index <= max < buffer.Length && fresh(buffer) && AllHex(buffer[..index])
        invariant HexPromptFrom(pending, max, buffer[..index]) == HexPromptFrom(old(pending), max, "")
        decreases |pending|
      {
        ghost var text := buffer[..index];
        var key, none := ReadKey();
        if none {
          return false, 0, true;
        }
        if key.scanCode == SCAN_ESC {
          return false, 0, false;
        }
        if key.unicodeChar == CHAR_CARRIAGE_RETURN {
          return true, HexToWord(buffer[..index]), false;
        }
        if IsHexDigit(key.unicodeChar) {
          if index < max {
            buffer[index] := key.unicodeChar;
            index := index + 1;
            assert buffer[..index] == text + [key.unicodeChar];
          }
        }
        if key.unicodeChar == CHAR_BACKSPACE && index > 0 {
          index := index - 1;
          assert buffer[..index] == text[..|text| - 1];
        }
        assert buffer[..index] == TypeKey(text, key.unicodeChar, max);
      }
    }
  }
}
