/** Protocol-buffer messages, as far as DAG-PB uses them: fields that hold a number or a byte
    string, with lengths and numbers written as varints. */
module DagPb {
  import opened Arithmetic
  import opened Wrappers
  import opened Sequences

  // ---------------------------------------------------------------- varints

  function Varint(n: nat): (r: seq<Byte>)
    ensures r != []
  {
    if n < 128 then [n] else [n % 128 + 128] + Varint(n / 128)
  }

  method WriteVarint(n: nat, buf: seq<Byte>) returns (r: seq<Byte>)
    ensures r == buf + Varint(n)
  {
    var rest := n;
    r := buf;
    while rest >= 0x80
      invariant r + Varint(rest) == buf + Varint(n)
    {
      VarintStep(r, rest);
      // The low eight bits of `rest`, with the highest of them set.
      r := r + [rest % 128 + 128];
      rest := rest / 128;
    }
    r := r + [rest];
  }

  lemma VarintStep(buf: seq<Byte>, n: nat)
    requires n >= 128
    ensures buf + Varint(n) == buf + [n % 128 + 128] + Varint(n / 128)
  {
  }

  function ReadVarint(bytes: seq<Byte>): (r: Option<(nat, seq<Byte>)>)
    ensures r.Some? ==> |r.value.1| < |bytes|
  {
    if bytes == [] then None
    else if bytes[0] < 128 then Some((bytes[0], bytes[1..]))
    else
      match ReadVarint(bytes[1..])
      case None => None
      case Some((high, rest)) => Some((128 * high + bytes[0] - 128, rest))
  }

  // Every number is read back, whatever follows it.
  lemma {:induction false} VarintBack(n: nat, rest: seq<Byte>)
    ensures ReadVarint(Varint(n) + rest) == Some((n, rest))
  {
    var bytes := Varint(n) + rest;
    if n < 128 {
      assert bytes[1..] == rest;
    } else {
      VarintBack(n / 128, rest);
      assert bytes[0] == n % 128 + 128 && bytes[1..] == Varint(n / 128) + rest;
    }
  }

  // The value of a varint: seven bits in each byte, the lowest first.
  function SevenBits(bytes: seq<Byte>): nat
  {
    if bytes == [] then 0 else bytes[0] % 128 + 128 * SevenBits(bytes[1..])
  }

  // Every byte but the last has its highest bit set, and together they hold the number; there is
  // no longer form, as the last is not zero but for a zero.
  lemma {:induction false} VarintMeans(n: nat)
    ensures SevenBits(Varint(n)) == n
    ensures forall i :: 0 <= i < |Varint(n)| ==> (Varint(n)[i] >= 128 <==> i < |Varint(n)| - 1)
    ensures |Varint(n)| > 1 ==> Varint(n)[|Varint(n)| - 1] > 0
  {
    if n >= 128 {
      VarintMeans(n / 128);
      assert Varint(n)[1..] == Varint(n / 128);
      assert Varint(n / 128)[0] == Varint(n)[1];
    } else {
      assert SevenBits([]) == 0;
    }
  }

  // ---------------------------------------------------------------- messages

  // The tag carries the number of the field and, in its low bits, the kind of its value.
  datatype Field = Number(tag: Byte, value: nat) | Bytes(tag: Byte, content: seq<Byte>)
  {
    predicate Valid()
    {
      tag % 8 == if Number? then 0 else 2
    }
  }

  function Written(field: Field): (r: seq<Byte>)
    ensures r != []
  {
    match field
    case Number(tag, value) => [tag] + Varint(value)
    case Bytes(tag, content) => [tag] + (Varint(|content|) + content)
  }

  function Message(fields: seq<Field>): seq<Byte>
  {
    if fields == [] then [] else Message(fields[..|fields| - 1]) + Written(fields[|fields| - 1])
  }

  function ReadField(bytes: seq<Byte>): (r: Option<(Field, seq<Byte>)>)
    ensures r.Some? ==> |r.value.1| < |bytes|
  {
    if bytes == [] then None
    else
      match ReadVarint(bytes[1..])
      case None => None
      case Some((n, rest)) =>
        if bytes[0] % 8 == 0 then Some((Number(bytes[0], n), rest))
        else if bytes[0] % 8 == 2 && n <= |rest| then Some((Bytes(bytes[0], rest[..n]), rest[n..]))
        else None
  }

  // The fields of a message.
  function Fields(bytes: seq<Byte>): Option<seq<Field>>
    decreases |bytes|
  {
    if bytes == [] then Some([])
    else
      match ReadField(bytes)
      case None => None
      case Some((field, rest)) =>
        match Fields(rest)
        case None => None
        case Some(fields) => Some([field] + fields)
  }

  lemma NumberBack(tag: Byte, value: nat, rest: seq<Byte>)
    requires tag % 8 == 0
    ensures ReadField([tag] + Varint(value) + rest) == Some((Number(tag, value), rest))
  {
    hide Varint, ReadVarint;
    ConsFirst(tag, Varint(value), rest);
    VarintBack(value, rest);
  }

  lemma BytesBack(tag: Byte, content: seq<Byte>, rest: seq<Byte>)
    requires tag % 8 == 2
    ensures ReadField([tag] + (Varint(|content|) + content) + rest) == Some((Bytes(tag, content), rest))
  {
    hide Varint, ReadVarint;
    ConsFirst(tag, Varint(|content|) + content, rest);
    Associate(Varint(|content|), content, rest);
    VarintBack(|content|, content + rest);
    SplitSum(content, rest);
  }

  lemma FieldBack(field: Field, rest: seq<Byte>)
    requires field.Valid()
    ensures ReadField(Written(field) + rest) == Some((field, rest))
  {
    hide Varint, ReadField;
    match field
    case Number(tag, value) =>
      NumberBack(tag, value, rest);
    case Bytes(tag, content) =>
      BytesBack(tag, content, rest);
  }

  ghost predicate AllValid(fields: seq<Field>)
  {
    forall i :: 0 <= i < |fields| ==> fields[i].Valid()
  }

  lemma MessageSnoc(fields: seq<Field>, last: Field)
    ensures Message(fields + [last]) == Message(fields) + Written(last)
  {
  }

  lemma MessageNothing()
    ensures Message([]) == []
  {
  }

  lemma {:induction false} MessageCons(field: Field, fields: seq<Field>)
    ensures Message([field] + fields) == Written(field) + Message(fields)
  {
    hide Message, Written;
    if fields == [] {
      MessageNothing();
      MessageSnoc([], field);
      assert [] + [field] == [field] + fields;
    } else {
      var k := |fields| - 1;
      MessageCons(field, fields[..k]);
      MessageSnoc([field] + fields[..k], fields[k]);
      MessageSnoc(fields[..k], fields[k]);
      assert fields[..k] + [fields[k]] == fields && [field] + fields[..k] + [fields[k]] == [field] + fields;
    }
  }

  // The fields of a written message are read back.
  lemma {:induction false} MessageBack(fields: seq<Field>)
    requires AllValid(fields)
    ensures Fields(Message(fields)) == Some(fields)
    decreases |fields|
  {
    hide ReadField, Message, Written;
    if fields == [] {
      MessageNothing();
    } else {
      assert fields == [fields[0]] + fields[1..];
      MessageCons(fields[0], fields[1..]);
      MessageBack(fields[1..]);
      FieldBack(fields[0], Message(fields[1..]));
    }
  }

  // ---------------------------------------------------------------- DAG-PB nodes of files

  datatype Link = Link(cid: seq<Byte>, size: nat)

  datatype Root = Root(links: seq<Link>, blockSizes: seq<nat>, totalLength: nat)

  // Hash, empty name and size.
  function LinkFields(link: Link): seq<Field>
  {
    [Bytes(0x0a, link.cid), Bytes(0x12, []), Number(0x18, link.size)]
  }

  // The type of a file, its length and the sizes of its blocks.
  function FileFields(blockSizes: seq<nat>, totalLength: nat): seq<Field>
  {
    if blockSizes == [] then [Number(0x08, 2), Number(0x18, totalLength)]
    else FileFields(blockSizes[..|blockSizes| - 1], totalLength) + [Number(0x20, blockSizes[|blockSizes| - 1])]
  }

  function LinksFields(links: seq<Link>): seq<Field>
  {
    if links == [] then []
    else LinksFields(links[..|links| - 1]) + [Bytes(0x12, Message(LinkFields(links[|links| - 1])))]
  }

  // The links come before the data.
  function RootFields(root: Root): seq<Field>
  {
    LinksFields(root.links) + [Bytes(0x0a, Message(FileFields(root.blockSizes, root.totalLength)))]
  }

  // A node is the links, each a field with number 2, and then the data of the file in field 1.
  lemma RootMessage(root: Root)
    ensures var file := Message(FileFields(root.blockSizes, root.totalLength));
      Message(RootFields(root)) == Message(LinksFields(root.links)) + ([0x0a] + (Varint(|file|) + file))
  {
    hide Message, LinksFields, FileFields;
    MessageSnoc(LinksFields(root.links), Bytes(0x0a, Message(FileFields(root.blockSizes, root.totalLength))));
  }

  // ---------------------------------------------------------------- reading a node back

  function LinkOf(field: Field): Option<Link>
  {
    if !(field.Bytes? && field.tag == 0x12) then None
    else
      match Fields(field.content)
      case None => None
      case Some(parts) =>
        if |parts| == 3 && parts[0].Bytes? && parts[2].Number? &&
           parts == LinkFields(Link(parts[0].content, parts[2].value))
        then Some(Link(parts[0].content, parts[2].value)) else None
  }

  function LinksOf(fields: seq<Field>): Option<seq<Link>>
  {
    if fields == [] then Some([])
    else
      match LinksOf(fields[..|fields| - 1])
      case None => None
      case Some(links) =>
        match LinkOf(fields[|fields| - 1])
        case None => None
        case Some(link) => Some(links + [link])
  }

  // The block sizes that follow the first two fields.
  function SizesOf(fields: seq<Field>): Option<seq<nat>>
  {
    if |fields| <= 2 then Some([])
    else
      match SizesOf(fields[..|fields| - 1])
      case None => None
      case Some(sizes) =>
        var last := fields[|fields| - 1];
        if last.Number? && last.tag == 0x20 then Some(sizes + [last.value]) else None
  }

  function RootOf(bytes: seq<Byte>): Option<Root>
  {
    match Fields(bytes)
    case None => None
    case Some(fields) =>
      var k := |fields| - 1;
      if k < 0 || !(fields[k].Bytes? && fields[k].tag == 0x0a) then None
      else
        match Fields(fields[k].content)
        case None => None
        case Some(file) =>
          if |file| < 2 || file[0] != Number(0x08, 2) || !(file[1].Number? && file[1].tag == 0x18) then None
          else
            match (LinksOf(fields[..k]), SizesOf(file))
            case (Some(links), Some(sizes)) => Some(Root(links, sizes, file[1].value))
            case _ => None
  }

  lemma LinkBack(link: Link)
    ensures LinkOf(Bytes(0x12, Message(LinkFields(link)))) == Some(link)
  {
    hide Message, Fields;
    MessageBack(LinkFields(link));
  }

  lemma LinksFieldsSnoc(links: seq<Link>, link: Link)
    ensures LinksFields(links + [link]) == LinksFields(links) + [Bytes(0x12, Message(LinkFields(link)))]
  {
  }

  lemma LinksOfSnoc(fields: seq<Field>, field: Field)
    requires LinksOf(fields).Some? && LinkOf(field).Some?
    ensures LinksOf(fields + [field]) == Some(LinksOf(fields).value + [LinkOf(field).value])
  {
  }

  lemma LinksNothing()
    ensures LinksFields([]) == [] && LinksOf([]) == Some([])
  {
  }

  lemma {:induction false} LinksBack(links: seq<Link>)
    ensures LinksOf(LinksFields(links)) == Some(links) && AllValid(LinksFields(links))
  {
    hide Message, LinkFields, LinkOf, LinksFields, LinksOf;
    if links == [] {
      LinksNothing();
    } else {
      var k := |links| - 1;
      TakeNext(links, k);
      assert links == links[..k + 1];
      LinksBack(links[..k]);
      LinksFieldsSnoc(links[..k], links[k]);
      LinkBack(links[k]);
      LinksOfSnoc(LinksFields(links[..k]), Bytes(0x12, Message(LinkFields(links[k]))));
    }
  }

  lemma {:induction false} SizesBack(blockSizes: seq<nat>, totalLength: nat)
    ensures var fields := FileFields(blockSizes, totalLength);
      && SizesOf(fields) == Some(blockSizes) && AllValid(fields)
      && |fields| >= 2 && fields[0] == Number(0x08, 2) && fields[1] == Number(0x18, totalLength)
  {
    if blockSizes != [] {
      var k := |blockSizes| - 1;
      SizesBack(blockSizes[..k], totalLength);
      assert blockSizes == blockSizes[..k] + [blockSizes[k]];
      var fields := FileFields(blockSizes, totalLength);
      assert fields[..|fields| - 1] == FileFields(blockSizes[..k], totalLength);
    }
  }

  // The serialisation of a node can be undone.
  lemma RootBack(root: Root)
    ensures RootOf(Message(RootFields(root))) == Some(root)
  {
    hide Message, Fields, LinksOf, LinksFields, FileFields, SizesOf;
    var fields := RootFields(root);
    LinksBack(root.links);
    SizesBack(root.blockSizes, root.totalLength);
    MessageBack(FileFields(root.blockSizes, root.totalLength));
    assert AllValid(fields);
    MessageBack(fields);
    assert fields[..|fields| - 1] == LinksFields(root.links);
  }
}
