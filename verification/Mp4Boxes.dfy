/** Boxes of an MP4 file (ISO/IEC 14496-12, section 4.2): size, kind and payload. */
module Mp4Boxes {
  import opened Arithmetic
  import opened ByteStrings
  import opened Wrappers

  datatype Mp4Error =
    | Truncated
    | InvalidBoxSize
    | IntegerOverflow
    | MissingMoov
    | DuplicateMoov
    | FragmentedMp4
    | MissingVideoTrack
    | MultipleVideoTracks
    | MultipleAudioTracks
    | UnsupportedTrack
    | UnsupportedEditList
    | ExternalDataReference
    | MissingMediaHeader
    | MissingSampleTable
    | MissingTable(name: string)
    | UnsupportedCodec(kind: seq<Byte>)
    | InvalidTable(name: string)
    | SampleCountMismatch

  function ReadUint(data: seq<Byte>, offset: nat, width: nat): Option<nat>
  {
    if offset + width <= |data| then Some(BigEndian(data[offset..offset + width])) else None
  }

  function ReadU32(data: seq<Byte>, offset: nat): Option<nat>
  {
    ReadUint(data, offset, 4)
  }

  function ReadU64(data: seq<Byte>, offset: nat): Option<nat>
  {
    ReadUint(data, offset, 8)
  }

  function ReadFourcc(data: seq<Byte>, offset: nat): Option<seq<Byte>>
  {
    if offset + 4 <= |data| then Some(data[offset..offset + 4]) else None
  }

  datatype IsoBox = IsoBox(kind: seq<Byte>, payload: seq<Byte>)

  // ---------------------------------------------------------------- one box

  datatype Step = End | Fail(error: Mp4Error) | Found(item: IsoBox, size: nat)

  // What stands at the front of the remaining bytes.
  function Front(remaining: seq<Byte>): (step: Step)
    ensures step.Found? ==> 8 <= step.size <= |remaining|
  {
    if remaining == [] then End
    else if |remaining| < 8 then Fail(Truncated)
    else
      var size32 := BigEndian(remaining[..4]);
      if size32 == 1 && |remaining| < 16 then Fail(Truncated)
      else
        var header := if size32 == 1 then 16 else 8;
        var size := if size32 == 1 then BigEndian(remaining[8..16]) else if size32 == 0 then |remaining| else size32;
        if size < header || size > |remaining| then Fail(InvalidBoxSize)
        else Found(IsoBox(remaining[4..8], remaining[header..size]), size)
  }

  // The boxes that iteration yields until it ends or fails.
  function Boxes(data: seq<Byte>): Result<seq<IsoBox>, Mp4Error>
    decreases |data|
  {
    match Front(data)
    case End => Ok([])
    case Fail(error) => Err(error)
    case Found(item, size) =>
      match Boxes(data[size..])
      case Err(error) => Err(error)
      case Ok(rest) => Ok([item] + rest)
  }

  class BoxIter {
    const data: seq<Byte>
    var position: nat

    constructor (data: seq<Byte>)
      ensures this.data == data && position == 0
    {
      this.data := data;
      position := 0;
    }

    ghost predicate Valid()
      reads this
    {
      position <= |data|
    }

    function Remaining(): seq<Byte>
      requires Valid()
      reads this
    {
      data[position..]
    }

    method Next() returns (item: Option<Result<IsoBox, Mp4Error>>)
      requires Valid()
      modifies this
      ensures Valid()
      ensures match Front(old(Remaining()))
        case End => item == None && position == old(position)
        case Fail(error) => item == Some(Err(error)) && Remaining() == []
        case Found(found, size) => item == Some(Ok(found)) && Remaining() == old(Remaining())[size..]
      ensures 0 < |old(Remaining())| < 8 ==> item == Some(Err(Truncated))
      ensures item == Some(Err(Truncated)) ==> 0 < |old(Remaining())| < 16
    {
      if position == |data| {
        return None;
      }
      var remaining := data[position..];
      if |remaining| < 8 {
        position := |data|;
        return Some(Err(Truncated));
      }
      var size32 := BigEndian(remaining[..4]);
      var kind := remaining[4..8];
      var headerSize, boxSize := 8, size32;
      if size32 == 1 {
        if |remaining| < 16 {
          position := |data|;
          return Some(Err(Truncated));
        }
        headerSize, boxSize := 16, BigEndian(remaining[8..16]);
      } else if size32 == 0 {
        boxSize := |remaining|;
      }
      if boxSize < headerSize || boxSize > |remaining| {
        position := |data|;
        return Some(Err(InvalidBoxSize));
      }
      position := position + boxSize;
      return Some(Ok(IsoBox(kind, remaining[headerSize..boxSize])));
    }
  }

  // ---------------------------------------------------------------- serialised boxes

  // The three ways to write the size of a box.
  datatype Form = Compact | Extended | ToEnd

  function Serialized(item: IsoBox, form: Form): seq<Byte>
  {
    match form
    case Compact => Encoded(8 + |item.payload|, 4) + item.kind + item.payload
    case Extended => Encoded(1, 4) + item.kind + Encoded(16 + |item.payload|, 8) + item.payload
    case ToEnd => Encoded(0, 4) + item.kind + item.payload
  }

  // A kind has four bytes, and the size fits its field.
  ghost predicate Fits(item: IsoBox, form: Form)
  {
    && |item.kind| == 4
    && match form
       case Compact => 8 + |item.payload| < 0x1_0000_0000
       case Extended => 16 + |item.payload| < 0x1_0000_0000_0000_0000
       case ToEnd => true
  }

  function SerializedAll(items: seq<IsoBox>, forms: seq<Form>): seq<Byte>
    requires |items| == |forms|
  {
    if items == [] then [] else Serialized(items[0], forms[0]) + SerializedAll(items[1..], forms[1..])
  }

  lemma FrontOfSerialized(item: IsoBox, form: Form, rest: seq<Byte>)
    requires Fits(item, form) && (form.ToEnd? ==> rest == [])
    ensures Front(Serialized(item, form) + rest) == Found(item, |Serialized(item, form)|)
  {
    hide Encoded, BigEndian;
    var s := Serialized(item, form) + rest;
    Pow256Words();
    match form
    case Compact =>
      EncodedBack(8 + |item.payload|, 4);
      assert s[..4] == Encoded(8 + |item.payload|, 4) && s[4..8] == item.kind;
      assert s[8..8 + |item.payload|] == item.payload;
    case Extended =>
      EncodedBack(1, 4);
      EncodedBack(16 + |item.payload|, 8);
      assert s[..4] == Encoded(1, 4) && s[4..8] == item.kind && s[8..16] == Encoded(16 + |item.payload|, 8);
      assert s[16..16 + |item.payload|] == item.payload;
    case ToEnd =>
      EncodedBack(0, 4);
      assert s[..4] == Encoded(0, 4) && s[4..8] == item.kind;
      assert s[8..|s|] == item.payload;
  }

  // Only the last box may extend to the end.
  ghost predicate FormsFit(items: seq<IsoBox>, forms: seq<Form>)
  {
    && |items| == |forms|
    && (forall i :: 0 <= i < |items| ==> Fits(items[i], forms[i]))
    && (forall i :: 0 <= i < |forms| - 1 ==> !forms[i].ToEnd?)
  }

  lemma BoxesAfter(item: IsoBox, form: Form, rest: seq<Byte>)
    requires Fits(item, form) && (form.ToEnd? ==> rest == [])
    ensures Boxes(Serialized(item, form) + rest)
         == if Boxes(rest).Ok? then Ok([item] + Boxes(rest).value) else Boxes(rest)
  {
    FrontOfSerialized(item, form, rest);
    assert (Serialized(item, form) + rest)[|Serialized(item, form)|..] == rest;
  }

  lemma NoBoxes()
    ensures Boxes([]) == Ok([])
  {
  }

  // Iterating over serialised boxes yields them again.
  lemma {:induction false} BoxesOfSerialized(items: seq<IsoBox>, forms: seq<Form>)
    requires FormsFit(items, forms)
    ensures Boxes(SerializedAll(items, forms)) == Ok(items)
  {
    hide Serialized, Fits, Front;
    if items == [] {
      NoBoxes();
    } else {
      BoxesOfSerialized(items[1..], forms[1..]);
      if forms[0].ToEnd? {
        assert items[1..] == [];
      }
      BoxesAfter(items[0], forms[0], SerializedAll(items[1..], forms[1..]));
      assert items == [items[0]] + items[1..];
    }
  }

  // The form in which the box at the front is written.
  lemma FormOfFront(remaining: seq<Byte>) returns (form: Form)
    requires Front(remaining).Found?
    ensures Fits(Front(remaining).item, form)
    ensures form.ToEnd? ==> Front(remaining).size == |remaining|
    ensures Serialized(Front(remaining).item, form) == remaining[..Front(remaining).size]
  {
    var size32, item, size := BigEndian(remaining[..4]), Front(remaining).item, Front(remaining).size;
    BigEndianBack(remaining[..4]);
    Pow256Words();
    if size32 == 1 {
      form := Extended;
      BigEndianBack(remaining[8..16]);
      assert remaining[..size] == remaining[..4] + remaining[4..8] + remaining[8..16] + remaining[16..size];
    } else {
      form := if size32 == 0 then ToEnd else Compact;
      assert remaining[..size] == remaining[..4] + remaining[4..8] + remaining[8..size];
    }
  }

  lemma PrependForm(item: IsoBox, form: Form, items: seq<IsoBox>, forms: seq<Form>)
    requires Fits(item, form) && FormsFit(items, forms) && (form.ToEnd? ==> items == [])
    ensures FormsFit([item] + items, [form] + forms)
    ensures SerializedAll([item] + items, [form] + forms) == Serialized(item, form) + SerializedAll(items, forms)
  {
  }

  lemma {:induction false} FormsOf(data: seq<Byte>) returns (forms: seq<Form>)
    requires Boxes(data).Ok?
    ensures FormsFit(Boxes(data).value, forms) && SerializedAll(Boxes(data).value, forms) == data
    decreases |data|
  {
    hide Fits, FormsFit, Serialized, SerializedAll;
    if data == [] {
      forms := [];
      NoForms();
    } else {
      var size, item := Front(data).size, Front(data).item;
      var first := FormOfFront(data);
      var rest := FormsOf(data[size..]);
      forms := [first] + rest;
      assert first.ToEnd? ==> data[size..] == [];
      PrependForm(item, first, Boxes(data[size..]).value, rest);
      assert data == data[..size] + data[size..];
    }
  }

  lemma NoForms()
    ensures FormsFit([], []) && SerializedAll([], []) == []
  {
  }

  // Iteration succeeds exactly on serialised boxes, and yields them: the boxes lie end to
  // end over the whole data.
  lemma BoxesExact(data: seq<Byte>, items: seq<IsoBox>)
    ensures Boxes(data) == Ok(items) <==> exists forms :: FormsFit(items, forms) && SerializedAll(items, forms) == data
  {
    if Boxes(data) == Ok(items) {
      var forms := FormsOf(data);
    }
    forall forms | FormsFit(items, forms) && SerializedAll(items, forms) == data
      ensures Boxes(data) == Ok(items)
    {
      BoxesOfSerialized(items, forms);
    }
  }

  // ---------------------------------------------------------------- children

  // The first failure wins, be it of a box or a second child of the kind.
  function ChildAmong(data: seq<Byte>, kind: seq<Byte>, found: Option<seq<Byte>>): Result<Option<seq<Byte>>, Mp4Error>
    decreases |data|
  {
    match Front(data)
    case End => Ok(found)
    case Fail(error) => Err(error)
    case Found(item, size) =>
      if item.kind != kind then ChildAmong(data[size..], kind, found)
      else if found.Some? then Err(InvalidTable("duplicate box"))
      else ChildAmong(data[size..], kind, Some(item.payload))
  }

  function FindChild(data: seq<Byte>, kind: seq<Byte>): Result<Option<seq<Byte>>, Mp4Error>
  {
    ChildAmong(data, kind, None)
  }

  method FindChildLoop(data: seq<Byte>, kind: seq<Byte>) returns (r: Result<Option<seq<Byte>>, Mp4Error>)
    ensures r == FindChild(data, kind)
  {
    var found: Option<seq<Byte>> := None;
    var iter := new BoxIter(data);
    while true
      invariant iter.Valid()
      invariant ChildAmong(iter.Remaining(), kind, found) == FindChild(data, kind)
      decreases |iter.Remaining()|
    {
      var item := iter.Next();
      match item {
        case None => return Ok(found);
        case Some(Err(error)) => return Err(error);
        case Some(Ok(box)) =>
          if box.kind == kind {
            if found.Some? {
              return Err(InvalidTable("duplicate box"));
            }
            found := Some(box.payload);
          }
      }
    }
  }

  function OfKind(boxes: seq<IsoBox>, kind: seq<Byte>): seq<seq<Byte>>
  {
    if boxes == [] then []
    else (if boxes[0].kind == kind then [boxes[0].payload] else []) + OfKind(boxes[1..], kind)
  }

  lemma {:induction false} ChildAmongMeans(data: seq<Byte>, kind: seq<Byte>, found: Option<seq<Byte>>)
    ensures var all := (if found.Some? then [found.value] else []) +
                       (if Boxes(data).Ok? then OfKind(Boxes(data).value, kind) else []);
      && (ChildAmong(data, kind, found).Ok? <==> Boxes(data).Ok? && |all| <= 1)
      && (ChildAmong(data, kind, found).Ok? ==>
            ChildAmong(data, kind, found).value == if |all| == 1 then Some(all[0]) else None)
    decreases |data|
  {
    match Front(data)
    case End =>
    case Fail(error) =>
    case Found(item, size) =>
      var next := if item.kind == kind then Some(item.payload) else found;
      ChildAmongMeans(data[size..], kind, next);
      if Boxes(data).Ok? {
        assert Boxes(data).value[1..] == Boxes(data[size..]).value;
      }
  }

  // A child is found exactly when the boxes are sound and one of them, and no other, is of
  // the kind; and none is reported missing while there is one.
  lemma FindChildMeans(data: seq<Byte>, kind: seq<Byte>)
    ensures FindChild(data, kind).Ok? <==> Boxes(data).Ok? && |OfKind(Boxes(data).value, kind)| <= 1
    ensures FindChild(data, kind).Ok? ==> var all := OfKind(Boxes(data).value, kind);
      FindChild(data, kind).value == if |all| == 1 then Some(all[0]) else None
  {
    ChildAmongMeans(data, kind, None);
  }
}
