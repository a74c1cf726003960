/** Key combinations as text.  A combination is the set of its bits. */
module KeyCombos {
  import opened Options

  /** The name of the key for bit i; "?" where there is none. */
  function Key(i: nat): string {
    match i
    case 0 => "A" case 1 => "B" case 2 => "Select" case 3 => "Start" case 4 => "Right" case 5 => "Left"
    case 6 => "Up" case 7 => "Down" case 8 => "R" case 9 => "L" case 10 => "X" case 11 => "Y"
    case 14 => "ZL" case 15 => "ZR" case 20 => "Touch"
    case 24 => "CStick Right" case 25 => "CStick Left" case 26 => "CStick Up" case 27 => "CStick Down"
    case 28 => "CPad Right" case 29 => "CPad Left" case 30 => "CPad Up" case 31 => "CPad Down"
    case _ => "?"
  }

  // The bits of the buttons, the touch screen and the two sticks.
  lemma ButtonNames()
    ensures Key(0) == "A" && Key(1) == "B" && Key(2) == "Select" && Key(3) == "Start"
    ensures Key(4) == "Right" && Key(5) == "Left" && Key(6) == "Up" && Key(7) == "Down"
    ensures Key(8) == "R" && Key(9) == "L" && Key(10) == "X" && Key(11) == "Y"
    ensures Key(14) == "ZL" && Key(15) == "ZR" && Key(20) == "Touch"
  {
  }

  lemma StickNames()
    ensures Key(24) == "CStick Right" && Key(25) == "CStick Left"
    ensures Key(26) == "CStick Up" && Key(27) == "CStick Down"
    ensures Key(28) == "CPad Right" && Key(29) == "CPad Left"
    ensures Key(30) == "CPad Up" && Key(31) == "CPad Down"
  {
  }

  lemma NamedBits(i: nat)
    ensures Named(i) <==> i < 12 || i == 14 || i == 15 || i == 20 || 24 <= i < 32
  {
  }

  predicate Named(i: nat) { i < 32 && Key(i) != "?" }

  function Fold(c: char): char { if 'A' <= c <= 'Z' then (c as int + 32) as char else c }

  /** strcasecmp. */
  predicate SameText(a: string, b: string) {
    |a| == |b| && forall i | 0 <= i < |a| :: Fold(a[i]) == Fold(b[i])
  }

  method CompareText(a: string, b: string) returns (same: bool)
    ensures same == SameText(a, b)
  {
    if |a| != |b| {
      return false;
    }
    var i := 0;
    while i < |a|
      invariant 0 <= i <= |a| && forall k | 0 <= k < i :: Fold(a[k]) == Fold(b[k])
    {
      if Fold(a[i]) != Fold(b[i]) {
        return false;
      }
      i := i + 1;
    }
    return true;
  }

  // ---------- the names tell the keys apart ----------

  /** The length of a name and its first and last letters tell which key it is. */
  function Which(n: nat, first: char, last: char): nat {
    if n == 1 then
      (if first == 'a' then 0 else if first == 'b' then 1 else if first == 'r' then 8 else if first == 'l' then 9
       else if first == 'x' then 10 else if first == 'y' then 11 else 32)
    else if n == 2 then (if first == 'u' then 6 else if last == 'l' then 14 else 15)
    else if n == 4 then (if first == 'l' then 5 else 7)
    else if n == 5 then (if first == 's' then 3 else if first == 'r' then 4 else 20)
    else if n == 6 then 2
    else if n == 7 then 30
    else if n == 9 then (if last == 'p' then 26 else if last == 't' then 29 else 31)
    else if n == 10 then 28
    else if n == 11 then (if last == 't' then 25 else 27)
    else 24
  }

  lemma KeyFacts(i: nat)
    requires Named(i)
    ensures 1 <= |Key(i)| <= 16 && (forall k | 0 <= k < |Key(i)| :: Key(i)[k] != '+')
    ensures Which(|Key(i)|, Fold(Key(i)[0]), Fold(Key(i)[|Key(i)| - 1])) == i && Fold(Key(i)[0]) != Fold('?')
  {
  }

  /** A key's name is that of no other key, whatever the case of the letters. */
  lemma OnlyKey(i: nat, j: nat)
    requires Named(i) && j < 32 && SameText(Key(j), Key(i))
    ensures i == j
  {
    hide Key;
    KeyFacts(i);
    assert Fold(Key(j)[0]) == Fold(Key(i)[0]);
    if Key(j) != "?" {
      KeyFacts(j);
    }
  }

  // ---------- printing ----------

  /** The names of the keys below bit n, the highest first, each with a plus behind it. */
  function Names(combo: set<nat>, n: nat): string {
    if n == 0 then "" else (if n - 1 in combo then Key(n - 1) + "+" else "") + Names(combo, n - 1)
  }

  /** All but the last character. */
  function Cut(s: string): string { if s == "" then "" else s[..|s| - 1] }

  lemma NamesStep(out: string, combo: set<nat>, n: nat)
    requires n > 0
    ensures out + Names(combo, n) == (if n - 1 in combo then out + Key(n - 1) + "+" else out) + Names(combo, n - 1)
  {
    hide Key;
    if n - 1 in combo {
      assert out + ((Key(n - 1) + "+") + Names(combo, n - 1)) == (out + Key(n - 1) + "+") + Names(combo, n - 1);
    } else {
      assert Names(combo, n) == Names(combo, n - 1);
    }
  }

  /** menuComboToString. */
  method ComboToString(combo: set<nat>) returns (out: string)
    ensures out == Cut(Names(combo, 32))
  {
    hide Key, Names;
    out := "";
    var i := 32;
    while i > 0
      invariant 0 <= i <= 32 && out + Names(combo, i) == Names(combo, 32)
    {
      NamesStep(out, combo, i);
      i := i - 1;
      if i in combo {
        out := out + Key(i);
        out := out + "+";
      }
    }
    NothingBelow(combo);
    assert out + "" == out;
    if out != "" {
      out := out[..|out| - 1];
    }
  }

  lemma NothingBelow(combo: set<nat>)
    ensures Names(combo, 0) == ""
  {
  }

  // ---------- parsing ----------

  /** Place of the first plus, or the end. */
  function PlusAt(s: string): (p: nat)
    ensures p <= |s| && (forall i | 0 <= i < p :: s[i] != '+') && (p < |s| ==> s[p] == '+')
  {
    if s == "" || s[0] == '+' then 0 else 1 + PlusAt(s[1..])
  }

  /** The name at the start of the text, of which no more than 16 characters are taken. */
  function NameAt(s: string): string { s[..if PlusAt(s) > 16 then 16 else PlusAt(s)] }

  /** The keys with this name. */
  function Keys(name: string): set<nat> { set i | 0 <= i < 32 && SameText(Key(i), name) }

  /** parseKeyComboOption from some place of the text on. */
  function ComboFrom(s: string, combo: set<nat>): Parsed<set<nat>>
    decreases |s|
  {
    var name := NameAt(s);
    if name == "?" || Keys(name) == {} then Wrong
    else if PlusAt(s) == |s| then Ok(combo + Keys(name))
    else if s[PlusAt(s) + 1..] == "" then Wrong
    else ComboFrom(s[PlusAt(s) + 1..], combo + Keys(name))
  }

  method FindPlus(s: string) returns (p: nat)
    ensures p == PlusAt(s)
  {
    p := 0;
    while p < |s| && s[p] != '+'
      invariant p <= |s| && p + PlusAt(s[p..]) == PlusAt(s)
    {
      assert s[p..][1..] == s[p + 1..];
      p := p + 1;
    }
  }

  /** The loop over the key names. */
  method FindKeys(name: string) returns (found: set<nat>)
    ensures found == Keys(name)
  {
    hide Key, SameText;
    found := {};
    var i := 0;
    while i < 32
      invariant 0 <= i <= 32 && found == set k | 0 <= k < i && SameText(Key(k), name)
    {
      var same := CompareText(Key(i), name);
      if same {
        found := found + {i};
      }
      i := i + 1;
    }
  }

  /** parseKeyComboOption. */
  method ParseKeyCombo(val: string) returns (r: Parsed<set<nat>>)
    ensures r == ComboFrom(val, {})
  {
    hide Keys, PlusAt, SameText, Key;
    var s, combo := val, {};
    r := Wrong;
    var more := true;
    while more
      invariant more ==> ComboFrom(s, combo) == ComboFrom(val, {})
      invariant !more ==> r == ComboFrom(val, {})
      decreases more, |s|
    {
      var p := FindPlus(s);
      var name := s[..if p > 16 then 16 else p];
      if name == "?" {
        return Wrong;
      }
      var found := FindKeys(name);
      if found == {} {
        return Wrong;
      }
      combo := combo + found;
      if p == |s| {
        r, more := Ok(combo), false;
      } else {
        s := s[p + 1..];
        if s == "" {
          r, more := Wrong, false;
        }
      }
    }
  }

  // ---------- parsing undoes printing ----------

  lemma {:induction false} PlusIs(s: string, p: nat)
    requires p <= |s| && (forall i | 0 <= i < p :: s[i] != '+') && (p < |s| ==> s[p] == '+')
    ensures PlusAt(s) == p
  {
    if p > 0 {
      PlusIs(s[1..], p - 1);
    }
  }

  /** A key's name at the start of the text is read as that key. */
  lemma OneKey(i: nat, rest: string)
    requires Named(i) && (rest == "" || rest[0] == '+')
    ensures var s := Key(i) + rest;
      PlusAt(s) == |Key(i)| && NameAt(s) == Key(i) && Keys(NameAt(s)) == {i} && NameAt(s) != "?"
  {
    hide Key, SameText;
    KeyFacts(i);
    var s := Key(i) + rest;
    PlusIs(s, |Key(i)|);
    SameAsItself(Key(i));
    forall j | j in Keys(Key(i))
      ensures j == i
    {
      OnlyKey(i, j);
    }
    assert i in Keys(Key(i));
  }

  lemma SameAsItself(s: string)
    ensures SameText(s, s)
  {
  }

  /** Keys in the order they are printed in. */
  function List(combo: set<nat>, n: nat): (keys: seq<nat>)
    ensures forall k | k in keys :: k < n
  {
    if n == 0 then [] else (if n - 1 in combo then [n - 1] else []) + List(combo, n - 1)
  }

  lemma {:induction false} ListIs(combo: set<nat>, n: nat)
    ensures forall k :: k in List(combo, n) <==> k in combo && k < n
  {
    if n > 0 {
      ListIs(combo, n - 1);
    }
  }

  /** Names of keys with a plus between them. */
  function Line(keys: seq<nat>): string
    requires keys != []
  {
    if |keys| == 1 then Key(keys[0]) else Key(keys[0]) + ("+" + Line(keys[1..]))
  }

  lemma Glue(k: string, l: string)
    ensures k + "+" + (l + "+") == k + ("+" + l) + "+"
  {
  }

  lemma ListStep(combo: set<nat>, n: nat)
    requires n > 0
    ensures List(combo, n) == if n - 1 in combo then [n - 1] + List(combo, n - 1) else List(combo, n - 1)
    ensures Names(combo, n) == if n - 1 in combo then Key(n - 1) + "+" + Names(combo, n - 1) else Names(combo, n - 1)
  {
    hide Key;
  }

  lemma LineStep(k: nat, keys: seq<nat>)
    ensures Line([k] + keys) == if keys == [] then Key(k) else Key(k) + ("+" + Line(keys))
  {
    hide Key;
    assert ([k] + keys)[1..] == keys;
  }

  lemma {:induction false} NamesAreLine(combo: set<nat>, n: nat)
    ensures List(combo, n) == [] ==> Names(combo, n) == ""
    ensures List(combo, n) != [] ==> Names(combo, n) == Line(List(combo, n)) + "+"
  {
    hide Key, Line, List, Names;
    if n == 0 {
      NoneBelow(combo);
    } else {
      NamesAreLine(combo, n - 1);
      ListStep(combo, n);
      if n - 1 in combo {
        AddToLine(n - 1, List(combo, n - 1), Names(combo, n - 1));
      }
    }
  }

  lemma NoneBelow(combo: set<nat>)
    ensures List(combo, 0) == [] && Names(combo, 0) == ""
  {
  }

  lemma AddToLine(k: nat, l: seq<nat>, names: string)
    requires names == if l == [] then "" else Line(l) + "+"
    ensures Key(k) + "+" + names == Line([k] + l) + "+"
  {
    hide Key, Line;
    LineStep(k, l);
    if l == [] {
      assert Key(k) + "+" + "" == Key(k) + "+";
    } else {
      Glue(Key(k), Line(l));
    }
  }

  lemma KeyNotEmpty(i: nat)
    ensures Key(i) != "" && Key(i)[0] != '+' && (i < 32 && !Named(i) ==> Key(i) == "?")
  {
  }

  lemma LineNotEmpty(keys: seq<nat>)
    requires keys != []
    ensures Line(keys) != ""
  {
    hide Key;
    KeyNotEmpty(keys[0]);
  }

  /** What reading does at the first key of a line. */
  lemma FirstKey(keys: seq<nat>, acc: set<nat>)
    requires keys != [] && keys[0] < 32
    ensures Named(keys[0]) && |keys| == 1 ==> ComboFrom(Line(keys), acc) == Ok(acc + {keys[0]})
    ensures Named(keys[0]) && |keys| > 1 ==> ComboFrom(Line(keys), acc) == ComboFrom(Line(keys[1..]), acc + {keys[0]})
    ensures !Named(keys[0]) ==> ComboFrom(Line(keys), acc) == Wrong
  {
    hide Key, Keys, PlusAt, Named, SameText;
    var i, rest := keys[0], if |keys| == 1 then "" else "+" + Line(keys[1..]);
    var s := Key(i) + rest;
    assert Line(keys) == s;
    if |keys| > 1 {
      LineNotEmpty(keys[1..]);
      assert s[|Key(i)| + 1..] == Line(keys[1..]);
    }
    KeyNotEmpty(i);
    if Named(i) {
      OneKey(i, rest);
    } else {
      PlusIs(s, 1);
    }
  }

  function SetOf(keys: seq<nat>): set<nat> { set k | k in keys }

  /** A line of named keys is read as the set of them, and one with an unnamed key is not read. */
  lemma {:induction false} LineRead(keys: seq<nat>, acc: set<nat>)
    requires keys != [] && forall i | 0 <= i < |keys| :: keys[i] < 32
    ensures (forall i | 0 <= i < |keys| :: Named(keys[i])) ==> ComboFrom(Line(keys), acc) == Ok(acc + SetOf(keys))
    ensures (exists i | 0 <= i < |keys| :: !Named(keys[i])) ==> ComboFrom(Line(keys), acc) == Wrong
  {
    hide Line, ComboFrom, Named;
    FirstKey(keys, acc);
    if |keys| > 1 {
      var rest := keys[1..];
      assert forall i | 1 <= i < |keys| :: keys[i] == rest[i - 1];
      LineRead(rest, acc + {keys[0]});
      assert keys == [keys[0]] + rest;
      assert acc + {keys[0]} + SetOf(rest) == acc + SetOf(keys);
      if exists i | 0 <= i < |keys| :: !Named(keys[i]) {
        var i :| 0 <= i < |keys| && !Named(keys[i]);
        assert i > 0 ==> !Named(rest[i - 1]);
      } else {
        assert forall i | 0 <= i < |rest| :: rest[i] == keys[i + 1];
      }
    } else {
      assert keys == [keys[0]];
      assert {keys[0]} == SetOf(keys);
    }
  }

  /** What menuComboToString writes parseKeyComboOption reads back exactly when there are keys and all have names. */
  lemma ComboRoundTrip(combo: set<nat>)
    requires forall i | i in combo :: i < 32
    ensures ComboFrom(Cut(Names(combo, 32)), {}) == Ok(combo) <==> combo != {} && forall i | i in combo :: Named(i)
  {
    hide ComboFrom, Named, Names, List, Line;
    var keys := List(combo, 32);
    ListIs(combo, 32);
    NamesAreLine(combo, 32);
    if keys == [] {
      assert forall k | k in combo :: k in keys;
      EmptyIsWrong();
    } else {
      assert forall i | 0 <= i < |keys| :: keys[i] in keys;
      LineRead(keys, {});
      assert Cut(Line(keys) + "+") == Line(keys);
      assert {} + SetOf(keys) == combo && keys[0] in combo;
      if forall i | i in combo :: Named(i) {
        assert forall i | 0 <= i < |keys| :: Named(keys[i]);
      } else {
        var k :| k in combo && !Named(k);
        var i :| 0 <= i < |keys| && keys[i] == k;
        assert !Named(keys[i]);
      }
    }
  }

  lemma EmptyIsWrong()
    ensures ComboFrom("", {}) == Wrong
  {
    forall i | 0 <= i < 32
      ensures !SameText(Key(i), "")
    {
      KeyNotEmpty(i);
    }
    assert Keys("") == {};
  }

  /** Bit 12 has no name: a combination with it, as the empty one, is written but not read. */
  lemma NotReadBack()
    ensures ComboFrom(Cut(Names({12}, 32)), {}) != Ok({12}) && ComboFrom(Cut(Names({}, 32)), {}) != Ok({})
  {
    hide ComboFrom, Names;
    assert !Named(12);
    ComboRoundTrip({12});
    ComboRoundTrip({});
  }

  lemma DefaultNames(combo: set<nat>)
    requires combo == {9, 7, 2}
    ensures Names(combo, 32) == "L" + "+" + ("Down" + "+" + ("Select" + "+" + ""))
  {
    hide Key;
    ButtonNames();
    NamesBetween(combo, 32, 10);
    NamesBetween(combo, 9, 8);
    NamesBetween(combo, 7, 3);
    NamesBetween(combo, 2, 0);
  }

  /** The default combination, bits 9, 7 and 2, is L, Down and Select. */
  lemma DefaultCombo()
    ensures Cut(Names({9, 7, 2}, 32)) == "L+Down+Select" && ComboFrom("L+Down+Select", {}) == Ok({9, 7, 2})
  {
    hide ComboFrom, Key, Names;
    DefaultNames({9, 7, 2});
    assert Names({9, 7, 2}, 32) == "L+Down+Select" + "+";
    NamedBits(2);
    NamedBits(7);
    NamedBits(9);
    ComboRoundTrip({9, 7, 2});
  }

  /** Bits that are not set add nothing. */
  lemma {:induction false} NamesBetween(combo: set<nat>, n: nat, m: nat)
    requires m <= n && forall i | m <= i < n :: i !in combo
    ensures Names(combo, n) == Names(combo, m)
    decreases n
  {
    if m < n {
      NamesBetween(combo, n - 1, m);
    }
  }
}
