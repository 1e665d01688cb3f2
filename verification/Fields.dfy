/** The byte format under the configuration blobs: little-endian numbers and length-prefixed
    byte strings, read by a cursor that advances over the input. */
module Fields {
  import opened Wrappers
  import opened Bytes

  // ----- Little-endian numbers

  function Pow256(n: nat): nat {
    if n == 0 then 1 else 256 * Pow256(n - 1)
  }

  function LittleEndian(v: nat, width: nat): (bytes: seq<byte>)
    ensures |bytes| == width
    decreases width
  {
    if width == 0 then [] else [v % 256] + LittleEndian(v / 256, width - 1)
  }

  function FromLittleEndian(bytes: seq<byte>): nat {
    if |bytes| == 0 then 0 else bytes[0] + 256 * FromLittleEndian(bytes[1..])
  }

  lemma {:induction false} NumberRoundTrip(v: nat, width: nat)
    requires v < Pow256(width)
    ensures FromLittleEndian(LittleEndian(v, width)) == v
    decreases width
  {
    if width > 0 {
      NumberRoundTrip(v / 256, width - 1);
      assert LittleEndian(v, width)[1..] == LittleEndian(v / 256, width - 1);
    }
  }

  lemma LowByte(b: byte, rest: nat)
    ensures (b + 256 * rest) % 256 == b && (b + 256 * rest) / 256 == rest
  {
  }

  lemma {:induction false} BytesRoundTrip(bytes: seq<byte>)
    ensures FromLittleEndian(bytes) < Pow256(|bytes|)
    ensures LittleEndian(FromLittleEndian(bytes), |bytes|) == bytes
  {
    if |bytes| > 0 {
      BytesRoundTrip(bytes[1..]);
      var rest := FromLittleEndian(bytes[1..]);
      LowByte(bytes[0], rest);
      assert bytes == [bytes[0]] + bytes[1..];
    }
  }

  // ----- Fields

  /** A number of `width` bytes, or a string of at most `maximum` bytes behind a 16-bit length. */
  datatype Kind = Num(width: nat) | Text(maximum: nat)

  datatype Field = Number(n: nat) | Bytes(text: seq<byte>)

  predicate Fits(f: Field, k: Kind) {
    match (f, k)
    case (Number(n), Num(width)) => n < Pow256(width)
    case (Bytes(text), Text(maximum)) => |text| <= maximum && |text| <= 0xFFFF
    case _ => false
  }

  ghost predicate AllFit(fs: seq<Field>, ks: seq<Kind>) {
    |fs| == |ks| && forall i :: 0 <= i < |fs| ==> Fits(fs[i], ks[i])
  }

  function EncodeField(f: Field, k: Kind): seq<byte>
    requires Fits(f, k)
  {
    match f
    case Number(n) => LittleEndian(n, k.width)
    case Bytes(text) => LittleEndian(|text|, 2) + text
  }

  function Encode(fs: seq<Field>, ks: seq<Kind>): seq<byte>
    requires AllFit(fs, ks)
    decreases |fs|
  {
    if |fs| == 0 then [] else EncodeField(fs[0], ks[0]) + Encode(fs[1..], ks[1..])
  }

  datatype Parsed<+T> = Parsed(value: T, rest: seq<byte>)

  function TakeField(k: Kind, input: seq<byte>): Option<Parsed<Field>> {
    match k
    case Num(width) =>
      if |input| < width then None
      else Some(Parsed(Number(FromLittleEndian(input[..width])), input[width..]))
    case Text(maximum) =>
      if |input| < 2 then None
      else
        var length := FromLittleEndian(input[..2]);
        if length > maximum || length > |input| - 2 then None
        else Some(Parsed(Bytes(input[2..2 + length]), input[2 + length..]))
  }

  function Parse(ks: seq<Kind>, input: seq<byte>): Option<Parsed<seq<Field>>>
    decreases |ks|
  {
    if |ks| == 0 then Some(Parsed([], input))
    else
      match TakeField(ks[0], input)
      case None => None
      case Some(first) =>
        match Parse(ks[1..], first.rest)
        case None => None
        case Some(others) => Some(Parsed([first.value] + others.value, others.rest))
  }

  // ----- Encoding and parsing are inverse to each other

  lemma TakeEncoded(f: Field, k: Kind, rest: seq<byte>)
    requires Fits(f, k)
    ensures TakeField(k, EncodeField(f, k) + rest) == Some(Parsed(f, rest))
  {
    var e := EncodeField(f, k);
    match f
    case Number(n) =>
      NumberRoundTrip(n, k.width);
      assert (e + rest)[..k.width] == e && (e + rest)[k.width..] == rest;
    case Bytes(text) =>
      assert Pow256(2) == 0x1_0000;
      NumberRoundTrip(|text|, 2);
      assert (e + rest)[..2] == LittleEndian(|text|, 2);
      assert (e + rest)[2..2 + |text|] == text && (e + rest)[2 + |text|..] == rest;
  }

  lemma EncodeTaken(k: Kind, input: seq<byte>)
    requires TakeField(k, input).Some?
    ensures var taken := TakeField(k, input).value;
            Fits(taken.value, k) && input == EncodeField(taken.value, k) + taken.rest
  {
    match k
    case Num(width) =>
      BytesRoundTrip(input[..width]);
    case Text(maximum) =>
      assert Pow256(2) == 0x1_0000;
      BytesRoundTrip(input[..2]);
      var length := FromLittleEndian(input[..2]);
      SplitText(input, length);
  }

  lemma SplitText(input: seq<byte>, length: nat)
    requires 2 + length <= |input|
    ensures input == input[..2] + input[2..2 + length] + input[2 + length..]
  {
  }

  lemma Regroup(a: seq<byte>, b: seq<byte>, c: seq<byte>)
    ensures (a + b) + c == a + (b + c)
  {
  }

  lemma {:induction false} ParseEncoded(fs: seq<Field>, ks: seq<Kind>, rest: seq<byte>)
    requires AllFit(fs, ks)
    ensures Parse(ks, Encode(fs, ks) + rest) == Some(Parsed(fs, rest))
    decreases |fs|
  {
    if |fs| == 0 {
      assert Encode(fs, ks) + rest == rest;
    } else {
      var tail := Encode(fs[1..], ks[1..]);
      Regroup(EncodeField(fs[0], ks[0]), tail, rest);
      TakeEncoded(fs[0], ks[0], tail + rest);
      ParseEncoded(fs[1..], ks[1..], rest);
      assert fs == [fs[0]] + fs[1..];
    }
  }

  lemma {:induction false} EncodeParsed(ks: seq<Kind>, input: seq<byte>)
    requires Parse(ks, input).Some?
    ensures var p := Parse(ks, input).value;
            AllFit(p.value, ks) && input == Encode(p.value, ks) + p.rest
    decreases |ks|
  {
    if |ks| > 0 {
      EncodeTaken(ks[0], input);
      var first := TakeField(ks[0], input).value;
      EncodeParsed(ks[1..], first.rest);
      var p := Parse(ks, input).value;
      assert p.value[1..] == Parse(ks[1..], first.rest).value.value;
    }
  }

  lemma {:induction false} EncodeConcat(fs: seq<Field>, ks: seq<Kind>, gs: seq<Field>, ls: seq<Kind>)
    requires AllFit(fs, ks) && AllFit(gs, ls)
    ensures AllFit(fs + gs, ks + ls)
    ensures Encode(fs + gs, ks + ls) == Encode(fs, ks) + Encode(gs, ls)
    decreases |fs|
  {
    if |fs| == 0 {
      assert fs + gs == gs && ks + ls == ls;
    } else {
      assert (fs + gs)[1..] == fs[1..] + gs && (ks + ls)[1..] == ks[1..] + ls;
      EncodeConcat(fs[1..], ks[1..], gs, ls);
      Regroup(EncodeField(fs[0], ks[0]), Encode(fs[1..], ks[1..]), Encode(gs, ls));
    }
  }

  // ----- Records: one table of kinds after the other

  ghost predicate AllGroupsFit(gs: seq<seq<Field>>, tables: seq<seq<Kind>>) {
    |gs| == |tables| && forall i :: 0 <= i < |gs| ==> AllFit(gs[i], tables[i])
  }

  ghost function EncodeGroups(gs: seq<seq<Field>>, tables: seq<seq<Kind>>): seq<byte>
    requires AllGroupsFit(gs, tables)
    decreases |gs|
  {
    if |gs| == 0 then [] else Encode(gs[0], tables[0]) + EncodeGroups(gs[1..], tables[1..])
  }

  function ParseGroups(tables: seq<seq<Kind>>, input: seq<byte>): Option<Parsed<seq<seq<Field>>>>
    decreases |tables|
  {
    if |tables| == 0 then Some(Parsed([], input))
    else
      var first :- Parse(tables[0], input);
      var others :- ParseGroups(tables[1..], first.rest);
      Some(Parsed([first.value] + others.value, others.rest))
  }

  lemma {:induction false} ParseEncodedGroups(gs: seq<seq<Field>>, tables: seq<seq<Kind>>, rest: seq<byte>)
    requires AllGroupsFit(gs, tables)
    ensures ParseGroups(tables, EncodeGroups(gs, tables) + rest) == Some(Parsed(gs, rest))
    decreases |gs|
  {
    if |gs| == 0 {
      assert EncodeGroups(gs, tables) + rest == rest;
    } else {
      var tail := EncodeGroups(gs[1..], tables[1..]);
      Regroup(Encode(gs[0], tables[0]), tail, rest);
      ParseEncoded(gs[0], tables[0], tail + rest);
      ParseEncodedGroups(gs[1..], tables[1..], rest);
      ParseGroupsStep(tables, EncodeGroups(gs, tables) + rest, Parsed(gs[0], tail + rest), Parsed(gs[1..], rest));
      assert gs == [gs[0]] + gs[1..];
    }
  }

  lemma ParseGroupsStep(tables: seq<seq<Kind>>, input: seq<byte>,
                        first: Parsed<seq<Field>>, others: Parsed<seq<seq<Field>>>)
    requires |tables| > 0 && Parse(tables[0], input) == Some(first)
    requires ParseGroups(tables[1..], first.rest) == Some(others)
    ensures ParseGroups(tables, input) == Some(Parsed([first.value] + others.value, others.rest))
  {
  }

  lemma {:induction false} EncodeParsedGroups(tables: seq<seq<Kind>>, input: seq<byte>)
    requires ParseGroups(tables, input).Some?
    ensures var p := ParseGroups(tables, input).value;
            AllGroupsFit(p.value, tables) && input == EncodeGroups(p.value, tables) + p.rest
    decreases |tables|
  {
    if |tables| > 0 {
      EncodeParsed(tables[0], input);
      var first := Parse(tables[0], input).value;
      EncodeParsedGroups(tables[1..], first.rest);
      var p := ParseGroups(tables, input).value;
      assert p.value[1..] == ParseGroups(tables[1..], first.rest).value.value;
    }
  }

  /** A record that is parsed to its end is the encoding of its groups. */
  lemma EncodeParsedRecord(tables: seq<seq<Kind>>, input: seq<byte>)
    requires ParseGroups(tables, input).Some? && ParseGroups(tables, input).value.rest == []
    ensures var gs := ParseGroups(tables, input).value.value;
            AllGroupsFit(gs, tables) && EncodeGroups(gs, tables) == input
  {
    EncodeParsedGroups(tables, input);
    var gs := ParseGroups(tables, input).value.value;
    assert EncodeGroups(gs, tables) + [] == EncodeGroups(gs, tables);
  }

  lemma ParseEncodedRecord(gs: seq<seq<Field>>, tables: seq<seq<Kind>>)
    requires AllGroupsFit(gs, tables)
    ensures ParseGroups(tables, EncodeGroups(gs, tables)) == Some(Parsed(gs, []))
  {
    ParseEncodedGroups(gs, tables, []);
    assert EncodeGroups(gs, tables) + [] == EncodeGroups(gs, tables);
  }

  function LongestGroups(tables: seq<seq<Kind>>): nat {
    if |tables| == 0 then 0 else LongestTotal(tables[0]) + LongestGroups(tables[1..])
  }

  lemma LongestOfEight(t: seq<seq<Kind>>)
    requires |t| == 8
    ensures LongestGroups(t)
         == LongestTotal(t[0]) + LongestTotal(t[1]) + LongestTotal(t[2]) + LongestTotal(t[3])
          + LongestTotal(t[4]) + LongestTotal(t[5]) + LongestTotal(t[6]) + LongestTotal(t[7])
  {
    LongestOfFourGroups(t[4..]);
    assert t[1..][1..] == t[2..] && t[2..][1..] == t[3..] && t[3..][1..] == t[4..];
    assert LongestGroups(t[3..]) == LongestTotal(t[3]) + LongestGroups(t[4..]);
    assert LongestGroups(t[2..]) == LongestTotal(t[2]) + LongestGroups(t[3..]);
    assert LongestGroups(t[1..]) == LongestTotal(t[1]) + LongestGroups(t[2..]);
  }

  lemma LongestOfFourGroups(t: seq<seq<Kind>>)
    requires |t| == 4
    ensures LongestGroups(t)
         == LongestTotal(t[0]) + LongestTotal(t[1]) + LongestTotal(t[2]) + LongestTotal(t[3])
  {
    assert t[1..][1..] == t[2..] && t[2..][1..] == t[3..] && t[3..][1..] == [];
    assert LongestGroups(t[3..]) == LongestTotal(t[3]);
    assert LongestGroups(t[2..]) == LongestTotal(t[2]) + LongestGroups(t[3..]);
    assert LongestGroups(t[1..]) == LongestTotal(t[1]) + LongestGroups(t[2..]);
  }

  lemma {:induction false} EncodedGroupsLength(gs: seq<seq<Field>>, tables: seq<seq<Kind>>)
    requires AllGroupsFit(gs, tables)
    ensures |EncodeGroups(gs, tables)| <= LongestGroups(tables)
    decreases |gs|
  {
    if |gs| > 0 {
      EncodedLength(gs[0], tables[0]);
      EncodedGroupsLength(gs[1..], tables[1..]);
    }
  }

  function Longest(k: Kind): nat {
    if k.Num? then k.width else 2 + k.maximum
  }

  function LongestTotal(ks: seq<Kind>): nat {
    if |ks| == 0 then 0 else Longest(ks[0]) + LongestTotal(ks[1..])
  }

  lemma {:induction false} EncodedLength(fs: seq<Field>, ks: seq<Kind>)
    requires AllFit(fs, ks)
    ensures |Encode(fs, ks)| <= LongestTotal(ks)
    decreases |fs|
  {
    if |fs| > 0 { EncodedLength(fs[1..], ks[1..]); }
  }

  lemma LongestTotalCons(k: Kind, ks: seq<Kind>)
    ensures LongestTotal([k] + ks) == Longest(k) + LongestTotal(ks)
  {
    assert ([k] + ks)[1..] == ks;
  }

  lemma LongestOfFour(a: Kind, b: Kind, c: Kind, d: Kind)
    ensures LongestTotal([a, b, c, d]) == Longest(a) + Longest(b) + Longest(c) + Longest(d)
  {
    assert [a, b, c, d] == [a] + ([b] + ([c] + ([d] + [])));
    LongestTotalCons(a, [b] + ([c] + ([d] + [])));
    LongestTotalCons(b, [c] + ([d] + []));
    LongestTotalCons(c, [d] + []);
    LongestTotalCons(d, []);
  }

  lemma LongestOfThree(a: Kind, b: Kind, c: Kind)
    ensures LongestTotal([a, b, c]) == Longest(a) + Longest(b) + Longest(c)
  {
    assert [a, b, c] == [a] + ([b] + ([c] + []));
    LongestTotalCons(a, [b] + ([c] + []));
    LongestTotalCons(b, [c] + []);
    LongestTotalCons(c, []);
  }

  lemma {:induction false} LongestTotalConcat(ks: seq<Kind>, ls: seq<Kind>)
    ensures LongestTotal(ks + ls) == LongestTotal(ks) + LongestTotal(ls)
  {
    if |ks| == 0 {
      assert ks + ls == ls;
    } else {
      assert (ks + ls)[1..] == ks[1..] + ls;
      LongestTotalConcat(ks[1..], ls);
    }
  }

  lemma LongestOfParts(a: seq<Kind>, b: seq<Kind>, c: seq<Kind>, d: seq<Kind>)
    ensures LongestTotal(a + (b + (c + d)))
         == LongestTotal(a) + LongestTotal(b) + LongestTotal(c) + LongestTotal(d)
  {
    LongestTotalConcat(a, b + (c + d));
    LongestTotalConcat(b, c + d);
    LongestTotalConcat(c, d);
  }

  // ----- The source's buffer operations

  /** `append_u8` to `append_u64`: the low byte first, then the value shifted by eight. */
  method AppendNumber(output: seq<byte>, value: nat, width: nat) returns (appended: seq<byte>)
    ensures appended == output + LittleEndian(value, width)
  {
    appended := output;
    var left := value;
    ghost var whole := LittleEndian(value, width);
    for i := 0 to width
      invariant appended == output + whole[..i]
      invariant whole[i..] == LittleEndian(left, width - i)
    {
      assert whole[i] == whole[i..][0] == left % 256;
      assert whole[i + 1..] == whole[i..][1..];
      assert whole[..i + 1] == whole[..i] + [whole[i]];
      appended := appended + [left % 256];
      left := left / 256;
    }
  }

  /** `take_u8` to `take_u64`: bytes are added with growing weight while the cursor advances. */
  method TakeNumber(input: seq<byte>, offset: nat, width: nat) returns (value: Option<nat>, next: nat)
    requires offset <= |input|
    ensures offset <= next <= |input|
    ensures value.None? <==> |input| - offset < width
    ensures value.Some? ==>
              next == offset + width && value.value == FromLittleEndian(input[offset..offset + width])
  {
    next := offset;
    var sum: nat := 0;
    var weight: nat := 1;
    for i := 0 to width
      invariant next == offset + i <= |input|
      invariant sum == FromLittleEndian(input[offset..next]) && weight == Pow256(i)
    {
      if next >= |input| { return None, next; }
      LastByte(input[offset..next], input[next]);
      assert input[offset..next + 1] == input[offset..next] + [input[next]];
      sum := sum + weight * input[next];
      weight := weight * 256;
      next := next + 1;
    }
    value := Some(sum);
  }

  lemma {:induction false} LastByte(bytes: seq<byte>, b: byte)
    ensures FromLittleEndian(bytes + [b]) == FromLittleEndian(bytes) + Pow256(|bytes|) * b
  {
    if |bytes| == 0 {
      assert bytes + [b] == [b];
    } else {
      assert (bytes + [b])[1..] == bytes[1..] + [b];
      LastByte(bytes[1..], b);
    }
  }

  /** `append_string`: refused when the value is longer than its maximum or than 65535. */
  method AppendField(output: seq<byte>, f: Field, k: Kind) returns (appended: Option<seq<byte>>)
    requires f.Number? ==> k.Num? && Fits(f, k)
    requires f.Bytes? ==> k.Text?
    ensures appended.Some? <==> Fits(f, k)
    ensures appended.Some? ==> appended.value == output + EncodeField(f, k)
  {
    match f
    case Number(n) =>
      var bytes := AppendNumber(output, n, k.width);
      appended := Some(bytes);
    case Bytes(text) =>
      if |text| > k.maximum || |text| > 0xFFFF { return None; }
      var bytes := AppendNumber(output, |text|, 2);
      appended := Some(bytes + text);
  }

  /** `take_string` and the number readers, by kind. */
  method ReadField(input: seq<byte>, offset: nat, k: Kind) returns (field: Option<Field>, next: nat)
    requires offset <= |input|
    ensures offset <= next <= |input|
    ensures field.Some? <==> TakeField(k, input[offset..]).Some?
    ensures field.Some? ==> TakeField(k, input[offset..]) == Some(Parsed(field.value, input[next..]))
  {
    var here := input[offset..];
    match k
    case Num(width) =>
      var value;
      value, next := TakeNumber(input, offset, width);
      if value.None? { return None, next; }
      assert here[..width] == input[offset..offset + width] && here[width..] == input[next..];
      field := Some(Number(value.value));
    case Text(maximum) =>
      var length;
      length, next := TakeNumber(input, offset, 2);
      if length.None? { return None, next; }
      assert here[..2] == input[offset..offset + 2];
      if length.value > maximum || length.value > |input| - next { return None, next; }
      assert here[2..2 + length.value] == input[next..next + length.value];
      assert here[2 + length.value..] == input[next + length.value..];
      field := Some(Bytes(input[next..next + length.value]));
      next := next + length.value;
  }

  method ReadFields(input: seq<byte>, offset: nat, ks: seq<Kind>) returns (fields: Option<seq<Field>>, next: nat)
    requires offset <= |input|
    ensures offset <= next <= |input|
    ensures fields.Some? <==> Parse(ks, input[offset..]).Some?
    ensures fields.Some? ==> Parse(ks, input[offset..]) == Some(Parsed(fields.value, input[next..]))
  {
    next := offset;
    var read: seq<Field> := [];
    assert ks[0..] == ks;
    PrependNone(Parse(ks, input[offset..]));
    for i := 0 to |ks|
      invariant offset <= next <= |input|
      invariant Parse(ks, input[offset..]) == Prepend(read, Parse(ks[i..], input[next..]))
    {
      var field, after := ReadField(input, next, ks[i]);
      assert ks[i..][1..] == ks[i + 1..];
      if field.None? { return None, next; }
      PrependOne(read, field.value, Parse(ks[i + 1..], input[after..]));
      read, next := read + [field.value], after;
    }
    assert read + [] == read;
    fields := Some(read);
  }

  ghost function Prepend<T>(read: seq<T>, more: Option<Parsed<seq<T>>>): Option<Parsed<seq<T>>> {
    if more.None? then None else Some(Parsed(read + more.value.value, more.value.rest))
  }

  lemma PrependNone<T>(more: Option<Parsed<seq<T>>>)
    ensures Prepend([], more) == more
  {
    if more.Some? { assert [] + more.value.value == more.value.value; }
  }

  lemma PrependOne<T>(read: seq<T>, f: T, more: Option<Parsed<seq<T>>>)
    ensures Prepend(read, Prepend([f], more)) == Prepend(read + [f], more)
  {
    if more.Some? { assert read + ([f] + more.value.value) == (read + [f]) + more.value.value; }
  }

  lemma EncodeNext(output: seq<byte>, fs: seq<Field>, ks: seq<Kind>, i: nat)
    requires AllFit(fs, ks) && i < |fs|
    ensures output + Encode(fs[i..], ks[i..])
         == (output + EncodeField(fs[i], ks[i])) + Encode(fs[i + 1..], ks[i + 1..])
  {
    assert fs[i..][1..] == fs[i + 1..] && ks[i..][1..] == ks[i + 1..];
  }

  method AppendFields(output: seq<byte>, fs: seq<Field>, ks: seq<Kind>) returns (appended: seq<byte>)
    requires AllFit(fs, ks)
    ensures appended == output + Encode(fs, ks)
  {
    appended := output;
    assert fs[0..] == fs && ks[0..] == ks;
    for i := 0 to |fs|
      invariant output + Encode(fs, ks) == appended + Encode(fs[i..], ks[i..])
    {
      EncodeNext(appended, fs, ks, i);
      var more := AppendField(appended, fs[i], ks[i]);
      appended := more.value;
    }
    assert appended + [] == appended;
  }

  lemma EncodeNextGroup(output: seq<byte>, gs: seq<seq<Field>>, tables: seq<seq<Kind>>, i: nat)
    requires AllGroupsFit(gs, tables) && i < |gs|
    ensures AllGroupsFit(gs[i..], tables[i..]) && AllGroupsFit(gs[i + 1..], tables[i + 1..])
    ensures output + EncodeGroups(gs[i..], tables[i..])
         == (output + Encode(gs[i], tables[i])) + EncodeGroups(gs[i + 1..], tables[i + 1..])
  {
    assert gs[i..][1..] == gs[i + 1..] && tables[i..][1..] == tables[i + 1..];
    Regroup(output, Encode(gs[i], tables[i]), EncodeGroups(gs[i + 1..], tables[i + 1..]));
  }

  method AppendGroups(output: seq<byte>, gs: seq<seq<Field>>, tables: seq<seq<Kind>>) returns (appended: seq<byte>)
    requires AllGroupsFit(gs, tables)
    ensures appended == output + EncodeGroups(gs, tables)
  {
    appended := output;
    assert gs[0..] == gs && tables[0..] == tables;
    for i := 0 to |gs|
      invariant output + EncodeGroups(gs, tables) == appended + EncodeGroups(gs[i..], tables[i..])
    {
      EncodeNextGroup(appended, gs, tables, i);
      appended := AppendFields(appended, gs[i], tables[i]);
    }
  }

  method ReadGroupFields(input: seq<byte>, offset: nat, tables: seq<seq<Kind>>)
      returns (groups: Option<seq<seq<Field>>>, next: nat)
    requires offset <= |input|
    ensures offset <= next <= |input|
    ensures groups.Some? <==> ParseGroups(tables, input[offset..]).Some?
    ensures groups.Some? ==> ParseGroups(tables, input[offset..]) == Some(Parsed(groups.value, input[next..]))
  {
    next := offset;
    var read: seq<seq<Field>> := [];
    assert tables[0..] == tables;
    PrependNone(ParseGroups(tables, input[offset..]));
    for i := 0 to |tables|
      invariant offset <= next <= |input|
      invariant ParseGroups(tables, input[offset..]) == Prepend(read, ParseGroups(tables[i..], input[next..]))
    {
      var fields, after := ReadFields(input, next, tables[i]);
      assert tables[i..][1..] == tables[i + 1..];
      if fields.None? { return None, next; }
      PrependOne(read, fields.value, ParseGroups(tables[i + 1..], input[after..]));
      read, next := read + [fields.value], after;
    }
    assert read + [] == read;
    groups := Some(read);
  }
}
