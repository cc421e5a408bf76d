// Sibling and cache lines: comma-separated groups of 32 CPUs in hexadecimal, the
// highest group first, turned into a list of (mask, group) pairs, lowest group first.
module MaskLine {
  import opened Bits
  import opened CoreLists
  import opened Text
  import Hex

  /** The masks of a line, or the exception that ended the parse with the masks as it left them; grown tells that
      there was already a place for the group that could not be read. */
  datatype Parsed = Masks(masks: seq<CoreMask>) | Thrown(masks: seq<CoreMask>, error: Hex.Number, grown: bool)

  /** tokens are the groups spelled backwards, the lowest group first. */
  function ParseTokens(tokens: seq<string>, position: nat): Parsed {
    if tokens == [] then Masks([])
    else
      var backwards := Hex.Stoull(tokens[0]);
      if !backwards.Value? then Thrown([], backwards, false)
      else if backwards.value == 0 then ParseTokens(tokens[1..], position + 1)
      else
        var number := Hex.Stoull(Reverse(tokens[0]));
        if !number.Value? then Thrown([], number, true)
        else Prepend([CoreMask(number.value, position)], ParseTokens(tokens[1..], position + 1))
  }

  function Prepend(masks: seq<CoreMask>, parsed: Parsed): Parsed {
    parsed.(masks := masks + parsed.masks)
  }

  /** The list known before, as long as no non-zero group has been found. */
  function Kept(known: seq<CoreMask>, found: seq<CoreMask>): seq<CoreMask> {
    if found == [] then known else found
  }

  /** What a line makes of the list known before. */
  function Parse(known: seq<CoreMask>, line: string): Parsed {
    Written(known, ParseTokens(Tokens(Reverse(line), ','), 0))
  }

  function Written(known: seq<CoreMask>, parsed: Parsed): Parsed {
    var masks := Kept(known, parsed.masks);
    parsed.(masks := if parsed.Thrown? && parsed.grown then Resize(masks, |parsed.masks| + 1) else masks)
  }

  function Resize(known: seq<CoreMask>, n: nat): (r: seq<CoreMask>)
    ensures |r| == n
  {
    if n <= |known| then known[..n] else known + seq(n - |known|, _ => CoreMask(0, 0))
  }

  lemma ResizeStore(known: seq<CoreMask>, n: nat, m: CoreMask)
    requires n <= |known|
    ensures Resize(known, n + 1)[n := m] == known[..n] + [m]
  {
  }

  /** The parse of what is left of a line, after the groups found so far. */
  function Unparsed(found: seq<CoreMask>, ss: string, position: nat): Parsed {
    Prepend(found, ParseTokens(Tokens(ss, ','), position))
  }

  /** What one group adds to the parse. */
  lemma ParseStep(found: seq<CoreMask>, ss: string, position: nat)
    requires ss != ""
    ensures var backwards, number := Hex.Stoull(Head(ss, ',')), Hex.Stoull(Reverse(Head(ss, ',')));
            Unparsed(found, ss, position) ==
              if !backwards.Value? then Thrown(found, backwards, false)
              else if backwards.value == 0 then Unparsed(found, Tail(ss, ','), position + 1)
              else if !number.Value? then Thrown(found, number, true)
              else Unparsed(found + [CoreMask(number.value, position)], Tail(ss, ','), position + 1)
  {
    var rest := ParseTokens(Tokens(Tail(ss, ','), ','), position + 1);
    var number := Hex.Stoull(Reverse(Head(ss, ',')));
    assert Tokens(ss, ',')[1..] == Tokens(Tail(ss, ','), ',');
    assert found + [] == found;
    if number.Value? { PrependTwice(found, [CoreMask(number.value, position)], rest); }
  }

  lemma PrependTwice(a: seq<CoreMask>, b: seq<CoreMask>, p: Parsed)
    ensures Prepend(a, Prepend(b, p)) == Prepend(a + b, p)
  {
    assert a + (b + p.masks) == a + b + p.masks;
  }

  lemma ParseStart(known: seq<CoreMask>, line: string)
    ensures Parse(known, line) == Written(known, Unparsed([], Reverse(line), 0))
  {
    var parsed := ParseTokens(Tokens(Reverse(line), ','), 0);
    assert [] + parsed.masks == parsed.masks;
  }

  method ParseLine(known: seq<CoreMask>, line: string) returns (parsed: Parsed)
    ensures parsed == Parse(known, line)
  {
    var ss := Reverse(line);
    var position := 0;
    var nonZeroMask := 0;
    var masks := known;
    ghost var found: seq<CoreMask> := [];
    ParseStart(known, line);
    while ss != ""
      invariant nonZeroMask == |found| && masks == Kept(known, found)
      invariant Parse(known, line) == Written(known, Unparsed(found, ss, position))
      decreases |ss|
    {
      ParseStep(found, ss, position);
      var chunk := Head(ss, ',');
      ss := Tail(ss, ',');
      var backwards := Hex.Stoull(chunk);
      if !backwards.Value? {
        return Thrown(masks, backwards, false);
      }
      if backwards.value != 0 {
        chunk := Reverse(chunk);
        ghost var before := masks;
        masks := Resize(masks, nonZeroMask + 1);
        var number := Hex.Stoull(chunk);
        if !number.Value? {
          return Thrown(masks, number, true);
        }
        ResizeStore(before, nonZeroMask, CoreMask(number.value, position));
        masks := masks[nonZeroMask := CoreMask(number.value, position)];
        nonZeroMask := nonZeroMask + 1;
        found := found + [CoreMask(number.value, position)];
      }
      position := position + 1;
    }
    return Masks(masks);
  }

  // ----- well-formed lines -----

  /** One to eight digits per group. */
  ghost predicate WellFormed(groups: seq<string>) {
    forall i :: 0 <= i < |groups| ==> Hex.AllHex(groups[i]) && 1 <= |groups[i]| <= 8
  }

  /** The values of the groups, the lowest group first. */
  function GroupValues(groups: seq<string>): seq<nat>
    requires WellFormed(groups)
  {
    if groups == [] then []
    else GroupValues(groups[1..]) + [Hex.DigitsValue(groups[0])]
  }

  ghost predicate Below32(values: seq<nat>) {
    forall i :: 0 <= i < |values| ==> values[i] < TWO_TO_THE_32
  }

  /** The masks of a list of group values, starting at the given group. */
  function MasksOf(values: seq<nat>, position: nat): seq<CoreMask>
    requires Below32(values)
  {
    if values == [] then []
    else (if values[0] > 0 then [CoreMask(values[0], position)] else []) + MasksOf(values[1..], position + 1)
  }

  lemma {:induction false} GroupCount(groups: seq<string>)
    requires WellFormed(groups)
    ensures |GroupValues(groups)| == |groups|
  {
    if groups != [] { GroupCount(groups[1..]); }
  }

  /** The groups spelled backwards, the lowest group first. */
  function Backwards(groups: seq<string>): seq<string> {
    if groups == [] then [] else Backwards(groups[1..]) + [Reverse(groups[0])]
  }

  lemma ReverseJoin(front: seq<string>, last: string)
    requires front != []
    ensures Reverse(Join(front + [last], ",")) == Reverse(last) + [','] + Reverse(Join(front, ","))
  {
    var line := Join(front, ",");
    JoinSnoc(front, last, ",");
    ReverseConcat(line + ",", last);
    ReverseConcat(line, ",");
    assert Reverse(",") == ",";
    assert Reverse(last) + ("," + Reverse(line)) == Reverse(last) + "," + Reverse(line);
  }

  /** The pieces of a line between its commas; a line that begins with a comma reads like the one without it. */
  ghost predicate Pieces(groups: seq<string>) {
    (groups != [] ==> groups[0] != "") && forall i :: 0 <= i < |groups| ==> ',' !in groups[i]
  }

  lemma WellFormedPieces(groups: seq<string>)
    requires WellFormed(groups)
    ensures Pieces(groups)
  {
  }

  /** A line is read piece by piece, the last one first, each spelled backwards. */
  lemma {:induction false} BackwardsLine(groups: seq<string>)
    requires Pieces(groups)
    ensures Tokens(Reverse(Join(groups, ",")), ',') == Backwards(groups)
  {
    if groups != [] {
      var last := groups[|groups| - 1];
      var front := groups[..|groups| - 1];
      assert groups == front + [last];
      ReverseMembers(last, ',');
      BackwardsSnoc(front, last);
      if front == [] {
        assert Join([last], ",") == last && Backwards([]) == [];
        TokensLast(Reverse(last), ',');
      } else {
        ReverseJoin(front, last);
        TokensStep(Reverse(last), Reverse(Join(front, ",")), ',');
        BackwardsLine(front);
      }
    }
  }

  lemma {:induction false} BackwardsSnoc(groups: seq<string>, last: string)
    ensures Backwards(groups + [last]) == [Reverse(last)] + Backwards(groups)
  {
    if groups == [] {
      assert ([] + [last])[1..] == [];
    } else {
      assert (groups + [last])[1..] == groups[1..] + [last];
      BackwardsSnoc(groups[1..], last);
    }
  }

  lemma {:induction false} GroupValuesSnoc(groups: seq<string>, last: string)
    requires WellFormed(groups + [last])
    ensures WellFormed(groups) && Hex.AllHex(last)
    ensures GroupValues(groups + [last]) == [Hex.DigitsValue(last)] + GroupValues(groups)
  {
    assert (groups + [last])[|groups|] == last;
    assert forall i :: 0 <= i < |groups| ==> (groups + [last])[i] == groups[i];
    if groups == [] {
      assert groups + [last] == [last];
      assert GroupValues([last]) == GroupValues([]) + [Hex.DigitsValue(last)];
    } else {
      assert (groups + [last])[1..] == groups[1..] + [last];
      GroupValuesSnoc(groups[1..], last);
    }
  }

  /** The mask of one group, if it is not zero. */
  function MaskOf(value: nat, position: nat): seq<CoreMask>
    requires value < TWO_TO_THE_32
  {
    if value > 0 then [CoreMask(value, position)] else []
  }

  /** How a group of at most eight digits is read, backwards and forwards. */
  lemma GroupRead(group: string)
    requires Hex.AllHex(group) && 1 <= |group| <= 8
    ensures Hex.DigitsValue(group) < TWO_TO_THE_32
    ensures Hex.Stoull(group) == Hex.Value(Hex.DigitsValue(group))
    ensures Hex.Stoull(Reverse(group)).Value?
    ensures Hex.Stoull(Reverse(group)).value == 0 <==> Hex.DigitsValue(group) == 0
  {
    GroupFits(group);
    Hex.ZeroBackwards(group);
    Hex.StoullOfDigits(group);
    Hex.StoullOfDigits(Reverse(group));
  }

  lemma ParseToken(group: string, rest: seq<string>, position: nat)
    requires Hex.AllHex(group) && 1 <= |group| <= 8
    ensures Hex.DigitsValue(group) < TWO_TO_THE_32
    ensures ParseTokens([Reverse(group)] + rest, position)
         == Prepend(MaskOf(Hex.DigitsValue(group), position), ParseTokens(rest, position + 1))
  {
    GroupRead(group);
    ReverseTwice(group);
    var tokens := [Reverse(group)] + rest;
    assert tokens[0] == Reverse(group) && tokens[1..] == rest;
    assert [] + ParseTokens(rest, position + 1).masks == ParseTokens(rest, position + 1).masks;
  }

  lemma GroupFits(group: string)
    requires Hex.AllHex(group) && |group| <= 8
    ensures Hex.DigitsValue(group) < TWO_TO_THE_32
  {
    Hex.DigitsBound(group);
    Pow2Monotone(4 * |group|, 32);
    Pow2Values();
  }

  lemma MasksOfStep(value: nat, values: seq<nat>, position: nat)
    requires value < TWO_TO_THE_32 && Below32(values)
    ensures Below32([value] + values)
    ensures MasksOf([value] + values, position) == MaskOf(value, position) + MasksOf(values, position + 1)
  {
    assert ([value] + values)[1..] == values;
  }

  lemma {:induction false} TokensParse(groups: seq<string>, position: nat)
    requires WellFormed(groups)
    ensures Below32(GroupValues(groups))
    ensures ParseTokens(Backwards(groups), position) == Masks(MasksOf(GroupValues(groups), position))
  {
    if groups != [] {
      var last := groups[|groups| - 1];
      var front := groups[..|groups| - 1];
      assert groups == front + [last];
      BackwardsSnoc(front, last);
      GroupValuesSnoc(front, last);
      TokensParse(front, position + 1);
      ParseToken(last, Backwards(front), position);
      MasksOfStep(Hex.DigitsValue(last), GroupValues(front), position);
    }
  }

  /** A well-formed line never throws; its masks are its non-zero groups, in place of the list known before, which
      stays as it was when all groups are zero. */
  lemma ParseWellFormed(known: seq<CoreMask>, groups: seq<string>)
    requires WellFormed(groups)
    ensures Below32(GroupValues(groups))
    ensures var masks := MasksOf(GroupValues(groups), 0);
            Parse(known, Join(groups, ",")) == Masks(if masks == [] then known else masks)
  {
    WellFormedPieces(groups);
    BackwardsLine(groups);
    TokensParse(groups, 0);
  }

  // ----- lines with an unreadable group -----

  /** The group cannot be read backwards, or it is not zero and cannot be read forwards. */
  ghost predicate Unreadable(group: string) {
    var backwards, number := Hex.Stoull(Reverse(group)), Hex.Stoull(group);
    !backwards.Value? || (backwards.value != 0 && !number.Value?)
  }

  /** The exception of an unreadable group, after the given masks. */
  function Failure(masks: seq<CoreMask>, group: string): Parsed {
    var backwards := Hex.Stoull(Reverse(group));
    Thrown(masks, if backwards.Value? then Hex.Stoull(group) else backwards, backwards.Value?)
  }

  lemma ThrowsAtOnce(group: string, rest: seq<string>, position: nat)
    requires Unreadable(group)
    ensures ParseTokens([Reverse(group)] + rest, position) == Failure([], group)
  {
    ReverseTwice(group);
    assert ([Reverse(group)] + rest)[0] == Reverse(group);
  }

  lemma {:induction false} ParseThrows(group: string, lower: seq<string>, rest: seq<string>, position: nat)
    requires WellFormed(lower) && Unreadable(group)
    ensures Below32(GroupValues(lower))
    ensures ParseTokens(Backwards(lower) + ([Reverse(group)] + rest), position)
         == Failure(MasksOf(GroupValues(lower), position), group)
  {
    var tokens := [Reverse(group)] + rest;
    if lower == [] {
      ThrowsAtOnce(group, rest, position);
      assert Backwards([]) + tokens == tokens;
    } else {
      var last, front := lower[|lower| - 1], lower[..|lower| - 1];
      assert lower == front + [last];
      GroupValuesSnoc(front, last);
      ParseThrows(group, front, rest, position + 1);
      LowestFirst(front, last, tokens, position);
      MasksOfStep(Hex.DigitsValue(last), GroupValues(front), position);
    }
  }

  lemma LowestFirst(front: seq<string>, last: string, tokens: seq<string>, position: nat)
    requires Hex.AllHex(last) && 1 <= |last| <= 8
    ensures Hex.DigitsValue(last) < TWO_TO_THE_32
    ensures ParseTokens(Backwards(front + [last]) + tokens, position)
         == Prepend(MaskOf(Hex.DigitsValue(last), position), ParseTokens(Backwards(front) + tokens, position + 1))
  {
    LowestToken(front, last, tokens);
    ParseToken(last, Backwards(front) + tokens, position);
  }

  lemma LowestToken(front: seq<string>, last: string, tokens: seq<string>)
    ensures Backwards(front + [last]) + tokens == [Reverse(last)] + (Backwards(front) + tokens)
  {
    BackwardsSnoc(front, last);
  }

  /** The lowest group that cannot be read throws; the groups below it are kept, with a place for the group itself
      when it was only the second reading, forwards, that failed. */
  lemma ParseUnreadable(higher: seq<string>, group: string, lower: seq<string>)
    requires WellFormed(lower) && Pieces(higher + [group] + lower)
    requires Unreadable(group)
    ensures Below32(GroupValues(lower))
    ensures var backwards, masks := Hex.Stoull(Reverse(group)), MasksOf(GroupValues(lower), 0);
            Parse([], Join(higher + [group] + lower, ",")) ==
              if backwards.Value? then Thrown(masks + [CoreMask(0, 0)], Hex.Stoull(group), true)
              else Thrown(masks, backwards, false)
  {
    BackwardsLine(higher + [group] + lower);
    BackwardsConcat(higher + [group], lower);
    BackwardsSnoc(higher, group);
    ParseThrows(group, lower, Backwards(higher), 0);
    WrittenFailure(MasksOf(GroupValues(lower), 0), group);
  }

  lemma WrittenFailure(masks: seq<CoreMask>, group: string)
    ensures var backwards := Hex.Stoull(Reverse(group));
            Written([], Failure(masks, group)) ==
              if backwards.Value? then Thrown(masks + [CoreMask(0, 0)], Hex.Stoull(group), true)
              else Thrown(masks, backwards, false)
  {
    assert Kept([], masks) == masks;
    assert Resize(masks, |masks| + 1) == masks + [CoreMask(0, 0)];
  }

  lemma {:induction false} BackwardsConcat(a: seq<string>, b: seq<string>)
    ensures Backwards(a + b) == Backwards(b) + Backwards(a)
  {
    if a == [] {
      assert a + b == b;
    } else {
      assert (a + b)[1..] == a[1..] + b;
      BackwardsConcat(a[1..], b);
    }
  }
}
