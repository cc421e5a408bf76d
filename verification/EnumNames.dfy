// Names of enumerators: printing and parsing against the text of the enumerator list,
// which the preprocessor spells with ", " between the names.
module EnumNames {
  import opened Bits
  import opened Text

  /** The value -1 converted to 64 bits. */
  const NOT_FOUND: Word := 0xFFFF_FFFF_FFFF_FFFF

  predicate IsNameChar(c: char) {
    '0' <= c <= '9' || 'a' <= c <= 'z' || 'A' <= c <= 'Z' || c == '_'
  }

  ghost predicate Identifier(s: string) {
    s != "" && forall i :: 0 <= i < |s| ==> IsNameChar(s[i])
  }

  /** The enumerators between Min and Max: distinct identifiers. */
  ghost predicate Enumerators(names: seq<string>) {
    names != [] && |names| < NOT_FOUND && Distinct(names) && forall i :: 0 <= i < |names| ==> Identifier(names[i])
  }

  function TrimLeft(s: string): string {
    if s != "" && IsSpace(s[0]) then TrimLeft(s[1..]) else s
  }

  function TrimRight(s: string): string {
    if s != "" && IsSpace(s[|s| - 1]) then TrimRight(s[..|s| - 1]) else s
  }

  function Trim(s: string): string {
    TrimRight(TrimLeft(s))
  }

  function DecimalDigit(d: nat): (c: char)
    requires d < 10
    ensures '0' <= c <= '9' && c as int - '0' as int == d
  {
    '0' + d as char
  }

  function Decimal(n: nat): string {
    (if n < 10 then "" else Decimal(n / 10)) + [DecimalDigit(n % 10)]
  }

  ghost predicate IsBlank(c: char) {
    c in [' ', '\t', '\n', '\U{0B}', '\U{0C}', '\r']
  }

  ghost predicate Blank(s: string) {
    forall i :: 0 <= i < |s| ==> IsBlank(s[i])
  }

  lemma {:induction false} TrimLeftCut(s: string) returns (blanks: string)
    ensures s == blanks + TrimLeft(s) && Blank(blanks)
    ensures TrimLeft(s) != "" ==> !IsBlank(TrimLeft(s)[0])
  {
    blanks := "";
    if s != "" {
      BlankTable(s[0]);
      if IsSpace(s[0]) {
        var rest := TrimLeftCut(s[1..]);
        blanks := [s[0]] + rest;
      }
    }
  }

  lemma {:induction false} TrimRightCut(s: string) returns (blanks: string)
    ensures s == TrimRight(s) + blanks && Blank(blanks)
    ensures TrimRight(s) != "" ==> !IsBlank(TrimRight(s)[|TrimRight(s)| - 1])
  {
    blanks := "";
    if s != "" {
      BlankTable(s[|s| - 1]);
      if IsSpace(s[|s| - 1]) {
        var rest := TrimRightCut(s[..|s| - 1]);
        blanks := rest + [s[|s| - 1]];
      }
    }
  }

  /** Trimming removes blanks at both ends, all of them, and nothing else. */
  lemma TrimCuts(s: string) returns (left: string, right: string)
    ensures s == left + Trim(s) + right && Blank(left) && Blank(right)
    ensures Trim(s) != "" ==> !IsBlank(Trim(s)[0]) && !IsBlank(Trim(s)[|Trim(s)| - 1])
  {
    left := TrimLeftCut(s);
    var mid := TrimLeft(s);
    right := TrimRightCut(mid);
    BothCuts(s, left, mid, Trim(s), right);
  }

  lemma BothCuts(s: string, left: string, mid: string, t: string, right: string)
    requires s == left + mid && mid == t + right
    ensures s == left + t + right && (t != "" ==> t[0] == mid[0])
  {
  }

  /** The number a string of decimal digits spells. */
  ghost function Spelled(s: string): int {
    if s == "" then 0 else 10 * Spelled(s[..|s| - 1]) + (s[|s| - 1] as int - '0' as int)
  }

  /** s is n in decimal digits, without an idle zero in front. */
  ghost predicate Spells(s: string, n: nat) {
    && s != "" && Spelled(s) == n && (n > 0 ==> s[0] != '0')
    && forall i :: 0 <= i < |s| ==> '0' <= s[i] <= '9'
  }

  lemma SpellsSnoc(s: string, n: nat, d: nat)
    requires d < 10 && if s == "" then n == 0 else Spells(s, n) && n > 0
    ensures Spells(s + [DecimalDigit(d)], 10 * n + d)
  {
    var t := s + [DecimalDigit(d)];
    assert t[..|s|] == s && t[|s|] == DecimalDigit(d);
    assert Spelled(t) == 10 * Spelled(s) + d;
  }

  lemma DecimalStep(n: nat)
    ensures Decimal(n) == (if n / 10 == 0 then "" else Decimal(n / 10)) + [DecimalDigit(n % 10)]
  {
  }

  /** A printed number spells its argument. */
  lemma {:induction false} DecimalSpells(n: nat)
    ensures Spells(Decimal(n), n)
  {
    var q, d := n / 10, n % 10;
    DecimalStep(n);
    if q == 0 {
      SpellsSnoc("", 0, d);
    } else {
      DecimalSpells(q);
      SpellsSnoc(Decimal(q), q, d);
    }
  }

  // ----- what the operations mean -----

  /** The value of the enumerator with this name, or NOT_FOUND. */
  function ValueOf(names: seq<string>, name: string): nat {
    if names == [] then NOT_FOUND
    else if names[|names| - 1] == name then |names|
    else ValueOf(names[..|names| - 1], name)
  }

  function NameOf(names: seq<string>, value: nat): string {
    if 1 <= value <= |names| then names[value - 1] else "UNDEF"
  }

  /** The values of the listed names, in order, each followed by a colon. */
  function Listing(names: seq<string>, values: seq<string>): string {
    if values == [] then ""
    else
      var last := values[|values| - 1];
      Listing(names, values[..|values| - 1])
      + if last in names then Decimal(ValueOf(names, last)) + ":" else ""
  }

  lemma {:induction false} ValueOfName(names: seq<string>, i: nat)
    requires Distinct(names) && i < |names|
    ensures ValueOf(names, names[i]) == i + 1
  {
    if i < |names| - 1 { ValueOfName(names[..|names| - 1], i); }
  }

  lemma {:induction false} ValueOfUnlisted(names: seq<string>, name: string)
    requires name !in names
    ensures ValueOf(names, name) == NOT_FOUND
  {
    if names != [] { ValueOfUnlisted(names[..|names| - 1], name); }
  }

  // ----- the text of the list -----

  /** The text left to scan after i names. */
  ghost function Unscanned(names: seq<string>, i: nat): string {
    if i >= |names| then "" else (if i == 0 then "" else " ") + Join(names[i..], ", ")
  }

  ghost function Token(names: seq<string>, i: nat): string
    requires i < |names|
  {
    (if i == 0 then "" else " ") + names[i]
  }

  lemma UnscannedStep(names: seq<string>, i: nat)
    requires i + 1 < |names|
    ensures Unscanned(names, i) == Token(names, i) + [','] + Unscanned(names, i + 1)
  {
    var rest := Join(names[i + 1..], ", ");
    assert names[i..][1..] == names[i + 1..];
    assert Join(names[i..], ", ") == names[i] + ", " + rest;
    var blank := if i == 0 then "" else " ";
    assert blank + (names[i] + ", " + rest) == blank + names[i] + [','] + (" " + rest);
  }

  lemma TokenHoldsNoComma(names: seq<string>, i: nat)
    requires Enumerators(names) && i < |names|
    ensures ',' !in Token(names, i) && Token(names, i) != ""
  {
    assert Identifier(names[i]);
  }

  lemma ScanToken(names: seq<string>, i: nat)
    requires Enumerators(names) && i < |names|
    ensures Unscanned(names, i) != ""
    ensures Head(Unscanned(names, i), ',') == Token(names, i)
    ensures Tail(Unscanned(names, i), ',') == Unscanned(names, i + 1)
  {
    TokenHoldsNoComma(names, i);
    if i + 1 < |names| {
      UnscannedStep(names, i);
      FirstToken(Token(names, i), Unscanned(names, i + 1), ',');
    } else {
      assert names[i..] == [names[i]];
      assert Unscanned(names, i) == Token(names, i);
      OnlyToken(Token(names, i), ',');
    }
  }

  lemma TrimToken(names: seq<string>, i: nat)
    requires Enumerators(names) && i < |names|
    ensures Trim(Token(names, i)) == names[i]
    ensures i > 0 ==> Token(names, i)[1..] == names[i]
  {
    assert Identifier(names[i]);
    assert IsNameChar(names[i][0]) && IsNameChar(names[i][|names[i]| - 1]);
    assert TrimLeft(names[i]) == names[i] == TrimRight(names[i]);
    if i > 0 { assert Token(names, i)[1..] == names[i]; }
  }

  // ----- the methods -----

  /** Parses a name: blanks around it are ignored, anything unlisted is NOT_FOUND. */
  method FromString(list: string, maxEnumSize: nat, ghost names: seq<string>, str: string) returns (index: nat)
    requires Enumerators(names) && list == Join(names, ", ") && maxEnumSize == |names|
    ensures index == ValueOf(names, Trim(str))
  {
    var ss := list;
    var enumCount := 0;
    var input := Trim(str);
    index := 1;
    if input == "" {
      ValueOfUnlisted(names, input);
      return NOT_FOUND;
    }
    for k := 0 to |input|
      invariant forall j :: 0 <= j < k ==> IsNameChar(input[j])
    {
      if !IsNameChar(input[k]) {
        ValueOfUnlisted(names, input);
        return NOT_FOUND;
      }
    }
    assert names[0..] == names;
    while ss != "" && enumCount < maxEnumSize
      invariant enumCount <= |names| && ss == Unscanned(names, enumCount) && index == enumCount + 1
      invariant forall j :: 0 <= j < enumCount ==> names[j] != input
      decreases |names| - enumCount
    {
      ScanToken(names, enumCount);
      TrimToken(names, enumCount);
      var token := Trim(Head(ss, ','));
      ss := Tail(ss, ',');
      if token == input {
        ValueOfName(names, enumCount);
        return index;
      }
      index := index + 1;
      enumCount := enumCount + 1;
    }
    if enumCount < |names| { ScanToken(names, enumCount); }
    ValueOfUnlisted(names, input);
    return NOT_FOUND;
  }

  method ToString(list: string, maxEnumSize: nat, ghost names: seq<string>, value: nat) returns (name: string)
    requires Enumerators(names) && list == Join(names, ", ") && maxEnumSize == |names|
    ensures name == NameOf(names, value)
    ensures value == 0 || value > |names| ==> name == "UNDEF"
  {
    var ss := list;
    var current := 1;
    var enumCount := 0;
    if value == 0 {
      return "UNDEF";
    }
    assert names[0..] == names;
    while ss != "" && enumCount < maxEnumSize
      invariant enumCount <= |names| && ss == Unscanned(names, enumCount) && current == enumCount + 1
      invariant value > enumCount
      decreases |names| - enumCount
    {
      ScanToken(names, enumCount);
      TrimToken(names, enumCount);
      var token := Head(ss, ',');
      ss := Tail(ss, ',');
      if current == value {
        if enumCount == 0 {
          return token;
        }
        return token[1..];
      }
      current := current + 1;
      enumCount := enumCount + 1;
    }
    if enumCount < |names| { ScanToken(names, enumCount); }
    return "UNDEF";
  }

  /** Each of the first n names with its value. */
  ghost function Flags(names: seq<string>, n: nat): map<string, nat>
    requires n <= |names|
  {
    if n == 0 then map[] else Flags(names, n - 1)[names[n - 1] := n]
  }

  /** The table the stream operator builds from the list. */
  method NameTable(list: string, maxEnumSize: nat, ghost names: seq<string>) returns (flags: map<string, nat>)
    requires Enumerators(names) && list == Join(names, ", ") && maxEnumSize == |names|
    ensures flags == Flags(names, |names|)
  {
    flags := map[];
    var flagsCounter := 1;
    var ss := list;
    var enumCount := 0;
    assert names[0..] == names;
    while ss != "" && enumCount < maxEnumSize
      invariant enumCount <= |names| && ss == Unscanned(names, enumCount) && flagsCounter == enumCount + 1
      invariant flags == Flags(names, enumCount)
      decreases |names| - enumCount
    {
      ScanToken(names, enumCount);
      TrimToken(names, enumCount);
      var token := Head(ss, ',');
      ss := Tail(ss, ',');
      token := if enumCount == 0 then token else token[1..];
      assert token == names[enumCount];
      flags := flags[token := flagsCounter];
      flagsCounter := flagsCounter + 1;
      enumCount := enumCount + 1;
    }
    if enumCount < |names| { ScanToken(names, enumCount); }
  }

  lemma {:induction false} FlagsValue(names: seq<string>, n: nat, s: string)
    requires n <= |names|
    ensures s in Flags(names, n) <==> s in names[..n]
    ensures s in Flags(names, n) ==> Flags(names, n)[s] == ValueOf(names[..n], s)
  {
    if n > 0 {
      FlagsValue(names, n - 1, s);
      assert names[..n] == names[..n - 1] + [names[n - 1]];
      assert names[..n][..n - 1] == names[..n - 1];
    }
  }

  /** Appends the values of those names that are listed, spelled exactly. */
  method PrintValues(os: string, list: string, maxEnumSize: nat, ghost names: seq<string>, values: seq<string>)
      returns (os': string)
    requires Enumerators(names) && list == Join(names, ", ") && maxEnumSize == |names|
    ensures os' == os + Listing(names, values)
  {
    var flags := NameTable(list, maxEnumSize, names);
    assert names[..|names|] == names;
    os' := os;
    for k := 0 to |values|
      invariant os' == os + Listing(names, values[..k])
    {
      assert values[..k + 1][..k] == values[..k];
      FlagsValue(names, |names|, values[k]);
      if values[k] in flags {
        os' := os' + (Decimal(flags[values[k]]) + ":");
      }
    }
    assert values[..|values|] == values;
  }

  // ----- round trips -----

  lemma {:induction false} TrimIdentifier(s: string)
    requires Identifier(s)
    ensures Trim(s) == s
  {
    assert IsNameChar(s[0]) && IsNameChar(s[|s| - 1]);
  }

  /** Every value prints to a name that parses back to it. */
  lemma ParseOfPrint(names: seq<string>, v: nat)
    requires Enumerators(names) && 1 <= v <= |names|
    ensures ValueOf(names, Trim(NameOf(names, v))) == v
  {
    TrimIdentifier(names[v - 1]);
    ValueOfName(names, v - 1);
  }

  /** Parsing succeeds exactly on the listed names, up to blanks around them, and printing gives the name back. */
  lemma PrintOfParse(names: seq<string>, s: string)
    requires Enumerators(names)
    ensures Trim(s) !in names <==> ValueOf(names, Trim(s)) == 0x1_0000_0000_0000_0000 - 1
    ensures Trim(s) in names ==> NameOf(names, ValueOf(names, Trim(s))) == Trim(s)
  {
    if Trim(s) in names {
      var i :| 0 <= i < |names| && names[i] == Trim(s);
      ValueOfName(names, i);
    } else {
      ValueOfUnlisted(names, Trim(s));
    }
  }

  /** The values the stream operator prints are those parsing yields. */
  lemma ListingAgrees(names: seq<string>, values: seq<string>, last: string)
    requires Enumerators(names)
    ensures last in names ==> Trim(last) == last
    ensures Listing(names, values + [last])
         == Listing(names, values) + if last in names then Decimal(ValueOf(names, Trim(last))) + ":" else ""
  {
    assert (values + [last])[..|values|] == values;
    if last in names { TrimIdentifier(last); }
  }
}
