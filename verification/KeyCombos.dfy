/** Button combinations in the configuration file: printed highest button first with `+` between the names, and
    parsed back without regard to case. A combination is the set of its bits. */
module KeyCombos {
  import opened Machine

  const MAX_NAME: nat := 16

  function KeyName(i: nat): string
    requires i < 32
  {
    if i == 0 then "A" else if i == 1 then "B" else if i == 2 then "Select" else if i == 3 then "Start"
    else if i == 4 then "Right" else if i == 5 then "Left" else if i == 6 then "Up" else if i == 7 then "Down"
    else if i == 8 then "R" else if i == 9 then "L" else if i == 10 then "X" else if i == 11 then "Y"
    else if i == 14 then "ZL" else if i == 15 then "ZR" else if i == 20 then "Touch"
    else if i == 24 then "CStick Right" else if i == 25 then "CStick Left" else if i == 26 then "CStick Up"
    else if i == 27 then "CStick Down" else if i == 28 then "CPad Right" else if i == 29 then "CPad Left"
    else if i == 30 then "CPad Up" else if i == 31 then "CPad Down"
    else "?"
  }

  /** The bits that stand for a button. */
  predicate Named(i: nat) {
    i < 32 && i !in {12, 13, 16, 17, 18, 19, 21, 22, 23}
  }

  function Lower(c: char): char {
    if 'A' <= c <= 'Z' then (c as int + 32) as char else c
  }

  /** `strcasecmp` finds the strings equal. */
  predicate SameName(s: string, t: string) {
    |s| == |t| && forall i :: 0 <= i < |s| ==> Lower(s[i]) == Lower(t[i])
  }

  // ----- the names are distinct

  /** Length, first and last letter, which tell the names apart. */
  function Signature(i: nat): (nat, char, char)
    requires i < 32
  {
    if i == 0 then (1, 'a', 'a') else if i == 1 then (1, 'b', 'b') else if i == 2 then (6, 's', 't')
    else if i == 3 then (5, 's', 't') else if i == 4 then (5, 'r', 't') else if i == 5 then (4, 'l', 't')
    else if i == 6 then (2, 'u', 'p') else if i == 7 then (4, 'd', 'n') else if i == 8 then (1, 'r', 'r')
    else if i == 9 then (1, 'l', 'l') else if i == 10 then (1, 'x', 'x') else if i == 11 then (1, 'y', 'y')
    else if i == 14 then (2, 'z', 'l') else if i == 15 then (2, 'z', 'r') else if i == 20 then (5, 't', 'h')
    else if i == 24 then (12, 'c', 't') else if i == 25 then (11, 'c', 't') else if i == 26 then (9, 'c', 'p')
    else if i == 27 then (11, 'c', 'n') else if i == 28 then (10, 'c', 't') else if i == 29 then (9, 'c', 't')
    else if i == 30 then (7, 'c', 'p') else if i == 31 then (9, 'c', 'n')
    else (1, '?', '?')
  }

  lemma SignatureOfName(i: nat)
    requires i < 32
    ensures var s, g := KeyName(i), Signature(i);
            1 <= |s| <= 12 && g == (|s|, Lower(s[0]), Lower(s[|s| - 1])) && '+' !in s
  {
  }

  lemma SignaturesDiffer(i: nat, j: nat)
    requires i < 32 && Named(i) && j < 32 && i != j
    ensures Signature(i) != Signature(j)
  {
  }

  lemma NamesDiffer(i: nat, j: nat)
    requires i < 32 && Named(i) && j < 32 && i != j
    ensures !SameName(KeyName(i), KeyName(j))
  {
    hide KeyName, Signature;
    SignatureOfName(i);
    SignatureOfName(j);
    SignaturesDiffer(i, j);
  }

  // ----- parsing

  ghost function Buttons(name: string): (r: set<nat>)
  {
    set i: nat | i < 32 && SameName(KeyName(i), name)
  }

  ghost predicate IsKey(name: string) {
    name != "?" && Buttons(name) != {}
  }

  function PlusAt(val: string, from: nat): (p: nat)
    requires from <= |val|
    ensures from <= p <= |val| && '+' !in val[from..p] && (p < |val| ==> val[p] == '+')
    decreases |val| - from
  {
    if from == |val| || val[from] == '+' then from else PlusAt(val, from + 1)
  }

  /** The buttons found so far together with what the rest of the text means. */
  ghost function WithRest(combo: set<nat>, rest: Option<set<nat>>): Option<set<nat>> {
    match rest
    case None => None
    case Some(c) => Some(combo + c)
  }

  /** What a text means: all parts between the `+` signs are button names. */
  ghost function Meaning(val: string, from: nat): Option<set<nat>>
    requires from <= |val|
    decreases |val| - from
  {
    var p := PlusAt(val, from);
    var name := val[from..p];
    if !IsKey(name) then None
    else if p == |val| then Some(Buttons(name))
    else WithRest(Buttons(name), Meaning(val, p + 1))
  }

  /** No name is empty, and none is so long that the name buffer would cut it. */
  lemma NamesFit(name: string)
    ensures name == "" || |name| > 12 ==> Buttons(name) == {}
  {
    hide KeyName;
    forall i: nat | i < 32 && SameName(KeyName(i), name)
      ensures 1 <= |name| <= 12
    {
      SignatureOfName(i);
    }
  }

  lemma WithRestSteps(combo: set<nat>, here: set<nat>, rest: Option<set<nat>>)
    ensures WithRest({}, rest) == rest
    ensures WithRest(combo, WithRest(here, rest)) == WithRest(combo + here, rest)
  {
    if rest.Some? {
      assert {} + rest.value == rest.value;
      assert combo + (here + rest.value) == (combo + here) + rest.value;
    }
  }

  method ParseKeyComboOption(val: string) returns (r: Option<set<nat>>)
    ensures r == Meaning(val, 0)
  {
    hide KeyName, SameName, Buttons;
    var start, combo: set<nat> := 0, {};
    var more := true;
    WithRestSteps({}, {}, Meaning(val, 0));
    while more
      invariant start <= |val| && WithRest(combo, Meaning(val, start)) == Meaning(val, 0)
      invariant !more ==> start == |val|
      decreases |val| - start, more
    {
      var end := PlusAt(val, start);
      var n := if end - start > MAX_NAME then MAX_NAME else end - start;
      var name := val[start..start + n];
      NamesFit(name);
      NamesFit(val[start..end]);
      if name == "?" { return None; }
      var found, here := FindButtons(name);
      if !found { return None; }
      if end < |val| { WithRestSteps(combo, here, Meaning(val, end + 1)); }
      combo := combo + here;
      if end == |val| { return Some(combo); }
      start := end + 1;
      more := start < |val|;
    }
    NamesFit("");
    assert val[start..start] == "";
    return None;
  }

  method FindButtons(name: string) returns (found: bool, here: set<nat>)
    ensures here == Buttons(name) && (found <==> here != {})
  {
    hide KeyName, SameName;
    found, here := false, {};
    var i := 0;
    while i < 32
      invariant i <= 32 && here == (set k: nat | k < i && SameName(KeyName(k), name)) && (found <==> here != {})
    {
      if SameName(KeyName(i), name) {
        found, here := true, here + {i};
      }
      i := i + 1;
    }
  }

  // ----- printing

  /** The names of the buttons below n, the highest first, each followed by `+`. */
  function NamesDown(combo: set<nat>, n: nat): string
    requires n <= 32
  {
    if n == 0 then ""
    else if n - 1 in combo then KeyName(n - 1) + "+" + NamesDown(combo, n - 1)
    else NamesDown(combo, n - 1)
  }

  /** Without the last `+`. */
  function Printed(combo: set<nat>, n: nat): string
    requires n <= 32
  {
    var s := NamesDown(combo, n);
    if s == "" then "" else s[..|s| - 1]
  }

  method MenuComboToString(combo: set<nat>) returns (out: string)
    ensures out == Printed(combo, 32)
  {
    hide KeyName;
    out := "";
    var i := 32;
    while i > 0
      invariant 0 <= i <= 32 && out + NamesDown(combo, i) == NamesDown(combo, 32)
    {
      i := i - 1;
      if i in combo {
        out := out + KeyName(i);
        out := out + "+";
      }
    }
    assert out + "" == out;
    if out != "" { out := out[..|out| - 1]; }
  }

  // ----- round trip

  lemma NamedIsKey(i: nat)
    requires i < 32
    ensures IsKey(KeyName(i)) <==> Named(i)
    ensures Named(i) ==> Buttons(KeyName(i)) == {i}
  {
    NameOfUnnamed(i);
    hide KeyName, SameName;
    if Named(i) {
      forall j: nat | j < 32 && j != i
        ensures !SameName(KeyName(j), KeyName(i))
      {
        NamesDiffer(i, j);
        Symmetric(KeyName(j), KeyName(i));
      }
      Reflexive(KeyName(i));
      assert i in Buttons(KeyName(i));
    }
  }

  lemma NameOfUnnamed(i: nat)
    requires i < 32
    ensures KeyName(i) == "?" <==> !Named(i)
  {
  }

  lemma ButtonBit(i: nat, name: string)
    requires Named(i) && KeyName(i) == name
    ensures Buttons(name) == {i}
  {
    NamedIsKey(i);
  }

  /** The bits of the buttons by their names: those of the pad register, */
  lemma PadBits()
    ensures Buttons("A") == {0} && Buttons("B") == {1} && Buttons("Select") == {2} && Buttons("Start") == {3}
    ensures Buttons("Right") == {4} && Buttons("Left") == {5} && Buttons("Up") == {6} && Buttons("Down") == {7}
    ensures Buttons("R") == {8} && Buttons("L") == {9} && Buttons("X") == {10} && Buttons("Y") == {11}
  {
    hide Buttons;
    ButtonBit(0, "A");
    ButtonBit(1, "B");
    ButtonBit(2, "Select");
    ButtonBit(3, "Start");
    ButtonBit(4, "Right");
    ButtonBit(5, "Left");
    ButtonBit(6, "Up");
    ButtonBit(7, "Down");
    ButtonBit(8, "R");
    ButtonBit(9, "L");
    ButtonBit(10, "X");
    ButtonBit(11, "Y");
  }

  /** and the others. */
  lemma OtherBits()
    ensures Buttons("ZL") == {14} && Buttons("ZR") == {15} && Buttons("Touch") == {20}
    ensures Buttons("CStick Right") == {24} && Buttons("CStick Left") == {25} && Buttons("CStick Up") == {26}
    ensures Buttons("CStick Down") == {27} && Buttons("CPad Right") == {28} && Buttons("CPad Left") == {29}
    ensures Buttons("CPad Up") == {30} && Buttons("CPad Down") == {31}
  {
    hide Buttons;
    ButtonBit(14, "ZL");
    ButtonBit(15, "ZR");
    ButtonBit(20, "Touch");
    ButtonBit(24, "CStick Right");
    ButtonBit(25, "CStick Left");
    ButtonBit(26, "CStick Up");
    ButtonBit(27, "CStick Down");
    ButtonBit(28, "CPad Right");
    ButtonBit(29, "CPad Left");
    ButtonBit(30, "CPad Up");
    ButtonBit(31, "CPad Down");
  }

  /** Names differ in nothing but the case of letters. */
  lemma CaseIgnored(c: char, d: char)
    ensures Lower(c) == Lower(d) <==>
            || c == d
            || ('A' <= c <= 'Z' && d as int == c as int + 32) || ('A' <= d <= 'Z' && c as int == d as int + 32)
  {
  }

  lemma Symmetric(s: string, t: string)
    ensures SameName(s, t) <==> SameName(t, s)
  {
  }

  lemma Reflexive(s: string)
    ensures SameName(s, s)
  {
  }

  lemma {:induction false} PlusShifts(val: string, from: nat, k: nat)
    requires from + k <= |val|
    ensures PlusAt(val[from..], k) + from == PlusAt(val, from + k)
    decreases |val| - from - k
  {
    if from + k < |val| && val[from + k] != '+' { PlusShifts(val, from, k + 1); }
  }

  /** What follows is read without regard to what came before. */
  lemma {:induction false} MeaningOfRest(val: string, from: nat, k: nat)
    requires from + k <= |val|
    ensures Meaning(val[from..], k) == Meaning(val, from + k)
    decreases |val| - from - k
  {
    hide Buttons, IsKey, WithRest, PlusAt;
    PlusShifts(val, from, k);
    var p := PlusAt(val, from + k);
    var name := val[from + k..p];
    assert val[from..][k..p - from] == name;
    if p < |val| { MeaningOfRest(val, from, p + 1 - from); }
    assert Meaning(val[from..], k) ==
      if !IsKey(name) then None
      else if p == |val| then Some(Buttons(name))
      else WithRest(Buttons(name), Meaning(val[from..], p + 1 - from));
  }

  lemma {:induction false} PlusIs(val: string, from: nat, k: nat)
    requires from <= k <= |val| && '+' !in val[from..k] && (k < |val| ==> val[k] == '+')
    ensures PlusAt(val, from) == k
    decreases k - from
  {
    if from < k {
      assert val[from] in val[from..k];
      PlusIs(val, from + 1, k);
    }
  }

  /** A text is read a name at a time. */
  lemma FirstMeaning(name: string, rest: string)
    requires '+' !in name
    ensures Meaning(name, 0) == if IsKey(name) then Some(Buttons(name)) else None
    ensures Meaning(name + "+" + rest, 0)
         == if IsKey(name) then WithRest(Buttons(name), Meaning(rest, 0)) else None
  {
    hide Buttons;
    var val, n := name + "+" + rest, |name|;
    assert name[0..n] == name && val[0..n] == name && val[n + 1..] == rest;
    PlusIs(name, 0, n);
    PlusIs(val, 0, n);
    MeaningOfRest(val, n + 1, 0);
  }

  /** The buttons of a combination below n. */
  ghost function Below(combo: set<nat>, n: nat): set<nat> {
    set i | i in combo && i < n
  }

  ghost predicate AllNamed(combo: set<nat>) {
    forall i :: i in combo ==> Named(i)
  }

  /** Parsing a printed combination gives it back exactly if it has a button and all its bits are buttons;
      otherwise parsing fails. */
  lemma {:induction false} PrintedMeans(combo: set<nat>, n: nat)
    requires n <= 32
    ensures Printed(combo, n) == "" <==> Below(combo, n) == {}
    ensures Meaning(Printed(combo, n), 0)
         == if Below(combo, n) != {} && AllNamed(Below(combo, n)) then Some(Below(combo, n)) else None
    decreases n
  {
    hide KeyName, Buttons, Named, Printed, Meaning, IsKey;
    if n == 0 {
      NothingPrinted(combo);
    } else {
      var i := n - 1;
      PrintedMeans(combo, i);
      SignatureOfName(i);
      NamedIsKey(i);
      PrintedStep(combo, i);
      FirstMeaning(KeyName(i), Printed(combo, i));
      BelowStep(combo, i);
    }
  }

  lemma NothingPrinted(combo: set<nat>)
    ensures Printed(combo, 0) == "" && Meaning("", 0) == None
  {
    NamesFit("");
  }

  lemma BelowStep(combo: set<nat>, i: nat)
    ensures Below(combo, i + 1) == if i in combo then {i} + Below(combo, i) else Below(combo, i)
    ensures i in combo ==> Below(combo, i + 1) != {} && (Below(combo, i) == {} ==> Below(combo, i + 1) == {i})
    ensures i in combo ==> (AllNamed(Below(combo, i + 1)) <==> Named(i) && AllNamed(Below(combo, i)))
  {
    hide Named;
    if i in combo {
      assert Below(combo, i + 1) == {i} + Below(combo, i);
      assert i in Below(combo, i + 1);
    } else {
      assert Below(combo, i + 1) == Below(combo, i);
    }
  }

  lemma PrintedStep(combo: set<nat>, i: nat)
    requires i < 32
    ensures i !in combo ==> Printed(combo, i + 1) == Printed(combo, i)
    ensures i in combo && Printed(combo, i) == "" ==> Printed(combo, i + 1) == KeyName(i)
    ensures i in combo && Printed(combo, i) != "" ==> Printed(combo, i + 1) == KeyName(i) + "+" + Printed(combo, i)
    ensures i in combo ==> Printed(combo, i + 1) != ""
  {
    SignatureOfName(i);
    NamesAreLong(combo, i);
    hide KeyName;
    var s := NamesDown(combo, i);
    assert i in combo ==> NamesDown(combo, i + 1) == KeyName(i) + "+" + s;
  }

  /** Names have letters: a non-empty list is longer than its last `+`. */
  lemma {:induction false} NamesAreLong(combo: set<nat>, n: nat)
    requires n <= 32
    ensures NamesDown(combo, n) == "" || |NamesDown(combo, n)| > 1
    decreases n
  {
    hide KeyName;
    if n > 0 {
      SignatureOfName(n - 1);
      NamesAreLong(combo, n - 1);
    }
  }

  lemma RoundTrip(combo: set<nat>)
    requires forall i :: i in combo ==> i < 32
    ensures Meaning(Printed(combo, 32), 0) == Some(combo) <==> combo != {} && AllNamed(combo)
    ensures Meaning(Printed(combo, 32), 0) == None <==> combo == {} || !AllNamed(combo)
  {
    PrintedMeans(combo, 32);
    assert Below(combo, 32) == combo;
  }
}
