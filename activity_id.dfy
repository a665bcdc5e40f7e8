/** The identity of an activity: the node of the activity network it leaves and
    the node it enters (heuristics/core/cpm/activities/activity_id.py). */
module ActivityIds {
  import opened Results
  import opened Text
  import opened Tuples

  datatype NodePair = NodePair(startNode: int, endNode: int)

  /** Only validated pairs exist: both nodes at least 1, and the activity does not
      run from a higher node to a lower one.  Equal nodes (`2-2`) are accepted. */
  type ActivityId = id: NodePair | 1 <= id.startNode <= id.endNode witness NodePair(1, 1)

  /** The constructor with its validation: a missing node is a TypeError, a node
      below 1 or a start after the end a ValueError. */
  function Make(startNode: Option<int>, endNode: Option<int>): (r: Result<ActivityId>)
    ensures r.Ok? <==> startNode.Some? && endNode.Some? && 1 <= startNode.value <= endNode.value
    ensures r.Ok? ==> r.value.startNode == startNode.value && r.value.endNode == endNode.value
    ensures (startNode.None? || endNode.None?) ==> r == Err(TypeError)
    ensures startNode.Some? && endNode.Some? && r.Err? ==> r.error == ValueError
  {
    if startNode.None? || endNode.None? then Err(TypeError)
    else if startNode.value < 1 || endNode.value < 1 then Err(ValueError)
    else if startNode.value > endNode.value then Err(ValueError)
    else Ok(NodePair(startNode.value, endNode.value))
  }

  /** Splits `"<start>-<end>"` at '-' and reads both pieces as integers; a wrong
      number of pieces or a piece that is not a numeral is a ValueError. */
  function ParseId(text: string): (r: Result<(nat, nat)>)
    ensures r.Ok? <==> |Split(text, '-')| == 2 && IsNumeral(Split(text, '-')[0]) && IsNumeral(Split(text, '-')[1])
    ensures r.Ok? ==> r.value == (NumeralValue(Split(text, '-')[0]), NumeralValue(Split(text, '-')[1]))
    ensures r.Err? ==> r.error == ValueError
  {
    var parts := Split(text, '-');
    if |parts| != 2 then Err(ValueError)
    else
      match (ParseNat(parts[0]), ParseNat(parts[1]))
      case (Some(a), Some(b)) => Ok((a, b))
      case _ => Err(ValueError)
  }

  /** `ActivityID.from_str`: parse, then validate as the constructor does; every
      failure (wrong shape, non-numeral piece, node 0, start after end) is a ValueError. */
  function FromStr(text: string): (r: Result<ActivityId>)
    ensures r.Ok? <==> ParseId(text).Ok? && 1 <= ParseId(text).value.0 <= ParseId(text).value.1
    ensures r.Ok? ==> (r.value.startNode, r.value.endNode) == ParseId(text).value
    ensures r.Err? ==> r.error == ValueError
  {
    match ParseId(text)
    case Err(e) => Err(e)
    case Ok((a, b)) => Make(Some(a), Some(b))
  }

  /** `str(id)`: `"<start>-<end>"` in decimal. */
  function ToStr(id: ActivityId): string
  {
    NatToString(id.startNode) + "-" + NatToString(id.endNode)
  }

  /** Reading back a printed id gives the id itself. */
  lemma RoundTrip(id: ActivityId)
    ensures FromStr(ToStr(id)) == Ok(id)
  {
    var x, y := NatToString(id.startNode), NatToString(id.endNode);
    assert ToStr(id) == x + ['-'] + y;
    SplitAtSeparator(x, y, '-');
    SplitWithoutSeparator(y, '-');
  }

  /** A text accepted by `FromStr` whose two numerals carry no leading zero is
      exactly the printed form of the id it yields. */
  lemma CanonicalText(text: string)
    requires FromStr(text).Ok?
    requires IsPositiveNumeral(Split(text, '-')[0]) && IsPositiveNumeral(Split(text, '-')[1])
    ensures ToStr(FromStr(text).value) == text
  {
    var parts := Split(text, '-');
    JoinSplit(text, '-');
    assert Join(parts[1..], '-') == parts[1];
    assert text == parts[0] + ['-'] + parts[1];
    PrintedNumeral(parts[0]);
    PrintedNumeral(parts[1]);
  }

  /** A numeral without a leading zero is the printed form of its value. */
  lemma {:induction false} PrintedNumeral(s: string)
    requires IsPositiveNumeral(s)
    ensures NatToString(NumeralValue(s)) == s
    decreases |s|
  {
    var last := s[|s| - 1];
    assert DigitChar(DigitValue(last)) == last;
    if |s| == 1 {
      assert s == [last];
    } else {
      var init := s[..|s| - 1];
      assert init[0] == s[0];
      PrintedNumeral(init);
      NumeralPositive(init);
      var n := NumeralValue(s);
      assert n / 10 == NumeralValue(init) && n % 10 == DigitValue(last);
      assert s == init + [last];
    }
  }

  /** A numeral without a leading zero denotes a positive number. */
  lemma {:induction false} NumeralPositive(s: string)
    requires IsPositiveNumeral(s)
    ensures NumeralValue(s) >= 1
    decreases |s|
  {
    if |s| > 1 {
      var init := s[..|s| - 1];
      assert init[0] == s[0];
      NumeralPositive(init);
    }
  }

  /** `a < b`: Python's tuple order on (start_node, end_node). */
  predicate Less(a: ActivityId, b: ActivityId)
  {
    a.startNode < b.startNode || (a.startNode == b.startNode && a.endNode < b.endNode)
  }

  /** The tuple an id is compared by. */
  function Key(id: ActivityId): seq<int>
  {
    [id.startNode, id.endNode]
  }

  lemma LessIsTupleOrder(a: ActivityId, b: ActivityId)
    ensures Less(a, b) <==> LexLess(Key(a), Key(b))
  {
    assert Key(a)[1..] == [a.endNode] && Key(b)[1..] == [b.endNode];
    assert [a.endNode][1..] == [] && [b.endNode][1..] == [];
    assert LexLess([a.endNode], [b.endNode]) <==> a.endNode < b.endNode;
  }

  /** `<` is a strict total order on ids: irreflexive, transitive, and any two
      different ids are comparable. */
  lemma LessIsStrictTotalOrder(a: ActivityId, b: ActivityId, c: ActivityId)
    ensures !Less(a, a)
    ensures Less(a, b) && Less(b, c) ==> Less(a, c)
    ensures a == b || Less(a, b) || Less(b, a)
    ensures !(Less(a, b) && Less(b, a))
  {
  }

  /** The other operand of `==`: an ActivityID or an object of another kind. */
  datatype Operand = IdOperand(id: ActivityId) | OtherOperand

  /** `id == other`: equal iff both nodes agree; another kind of operand raises
      NotImplementedError instead of answering False. */
  function Equals(id: ActivityId, other: Operand): (r: Result<bool>)
    ensures other.OtherOperand? <==> r == Err(NotImplementedError)
    ensures other.IdOperand? ==>
      r == Ok(id.startNode == other.id.startNode && id.endNode == other.id.endNode)
  {
    match other
    case IdOperand(o) => Ok(id == o)
    case OtherOperand => Err(NotImplementedError)
  }
}
