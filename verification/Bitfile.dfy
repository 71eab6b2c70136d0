/**
 Xilinx bitfiles (lib/python/bitfile.py): a magic number and chunks, each a one-byte tag, a
 big-endian length of two or four bytes and a body.
 */
module Bitfile {
  type Byte = x: int | 0 <= x < 256

  const MAGIC: seq<Byte> := [0x00, 0x09, 0x0f, 0xf0, 0x0f, 0xf0, 0x0f, 0xf0, 0x0f, 0xf0, 0x00, 0x00, 0x01]

  /** The chunk dictionary.  Nothing keeps a caller from using tags that are not one byte long. */
  type Chunks = map<seq<Byte>, seq<Byte>>

  datatype Error = BadMagic | ShortLength | Duplicate

  datatype Parsed = Ok(chunks: Chunks) | Err(error: Error)

  /** `Raised` stands for any exception: bad tags and bad lengths raise different ones. */
  datatype Printed = Text(data: seq<Byte>) | Raised

  // ------------------------------------------------------------------- lengths

  function Pow256(k: nat): (p: nat)
    ensures p > 0
  {
    if k == 0 then 1 else 256 * Pow256(k - 1)
  }

  /** `struct.pack(">H", n)` for `k == 2` and `struct.pack(">I", n)` for `k == 4`. */
  function Pack(n: nat, k: nat): (b: seq<Byte>)
    ensures |b| == k
  {
    if k == 0 then [] else Pack(n / 256, k - 1) + [n % 256]
  }

  /** `struct.unpack`, for a field of any width. */
  function Unpack(b: seq<Byte>): (n: nat) {
    if b == [] then 0 else 256 * Unpack(b[..|b| - 1]) + b[|b| - 1]
  }

  lemma {:induction false} UnpackPack(n: nat, k: nat)
    requires n < Pow256(k)
    ensures Unpack(Pack(n, k)) == n
  {
    if k != 0 {
      UnpackPack(n / 256, k - 1);
      assert Pack(n, k)[..k - 1] == Pack(n / 256, k - 1);
    }
  }

  lemma {:induction false} PackUnpack(b: seq<Byte>)
    ensures Unpack(b) < Pow256(|b|) && Pack(Unpack(b), |b|) == b
  {
    if b != [] {
      PackUnpack(b[..|b| - 1]);
      assert b == b[..|b| - 1] + [b[|b| - 1]];
    }
  }

  /** Numbers of two and of four bytes, the most significant one first. */
  function BigEndian2(a: int, b: int): int { 256 * a + b }

  function BigEndian4(a: int, b: int, c: int, d: int): int { 0x100_0000 * a + 0x1_0000 * b + 256 * c + d }

  lemma BigEndian(a: Byte, b: Byte, c: Byte, d: Byte)
    ensures Unpack([a, b]) == BigEndian2(a, b) && Unpack([a, b, c, d]) == BigEndian4(a, b, c, d)
  {
    assert [a, b, c, d][..3] == [a, b, c] && [a, b, c][..2] == [a, b] && [a, b][..1] == [a] && [a][..0] == [];
    assert Unpack([a]) == a;
  }

  // ---------------------------------------------------------------------- tags

  /** `SMALLCHUNKS` have two-byte lengths. */
  function Width(tag: Byte): (k: nat) {
    if 'a' as int <= tag <= 'd' as int then 2 else 4
  }

  /** `chunkorder` of a one-byte tag: "abcde" first, then by byte value. */
  function Order(tag: Byte): (k: nat) {
    if 'a' as int <= tag <= 'e' as int then tag - 'a' as int else 256 + tag
  }

  lemma OrderInjective(s: Byte, t: Byte)
    ensures Order(s) == Order(t) ==> s == t
  {
  }

  /** The letters from a to e come first, in this order, and then the other tags by their byte. */
  lemma OrderMeaning(s: Byte, t: Byte)
    ensures var letters := {'a' as int, 'b' as int, 'c' as int, 'd' as int, 'e' as int};
            Order(s) < Order(t) <==> if s in letters <==> t in letters then s < t else s in letters
  {
  }

  predicate Ascending(tags: seq<Byte>) {
    forall i, j :: 0 <= i < j < |tags| ==> Order(tags[i]) < Order(tags[j])
  }

  /** The tag at a place of the order; places from 5 to 255 and five later ones belong to no tag. */
  function TagAt(k: nat): (tag: Byte) {
    if k < 5 then 'a' as int + k else if 256 <= k < 512 then k - 256 else 0
  }

  predicate Has(m: Chunks, tag: Byte) { [tag] in m }

  /** The tags of the dictionary whose order is at least `k`, in order. */
  function TagsFrom(m: Chunks, k: nat): (tags: seq<Byte>)
    decreases 512 - k
  {
    if k >= 512 then []
    else (if Order(TagAt(k)) == k && Has(m, TagAt(k)) then [TagAt(k)] else []) + TagsFrom(m, k + 1)
  }

  /** `sorted(chunks.items(), key=chunkorder)`, for one-byte tags. */
  function SortedTags(m: Chunks): (tags: seq<Byte>) { TagsFrom(m, 0) }

  lemma {:induction false} TagsFromMembers(m: Chunks, k: nat, t: Byte)
    ensures t in TagsFrom(m, k) <==> Has(m, t) && k <= Order(t)
    decreases 512 - k
  {
    if k < 512 {
      TagsFromMembers(m, k + 1, t);
    }
  }

  lemma {:induction false} TagsFromAscending(m: Chunks, k: nat)
    ensures Ascending(TagsFrom(m, k))
    decreases 512 - k
  {
    if k < 512 {
      TagsFromAscending(m, k + 1);
      var later := TagsFrom(m, k + 1);
      forall i | 0 <= i < |later|
        ensures k < Order(later[i])
      {
        TagsFromMembers(m, k + 1, later[i]);
      }
    }
  }

  lemma SortedTagsMeaning(m: Chunks)
    ensures Ascending(SortedTags(m)) && forall t :: t in SortedTags(m) <==> Has(m, t)
  {
    TagsFromAscending(m, 0);
    forall t: Byte
      ensures t in SortedTags(m) <==> Has(m, t)
    {
      TagsFromMembers(m, 0, t);
    }
  }

  lemma FirstIsMember(s: seq<Byte>)
    ensures s == [] || s[0] in s
  {
  }

  /** There is only one ascending enumeration of a set of tags. */
  lemma {:induction false} AscendingUnique(s: seq<Byte>, t: seq<Byte>)
    requires Ascending(s) && Ascending(t) && forall x :: x in s <==> x in t
    ensures s == t
  {
    FirstIsMember(s);
    FirstIsMember(t);
    if s != [] && t != [] {
      assert s[0] in t && t[0] in s;
      OrderInjective(s[0], t[0]);
      assert s == [s[0]] + s[1..] && t == [t[0]] + t[1..];
      forall x | x in s[1..]
        ensures x in t[1..]
      {
        assert x in s && x != s[0];
      }
      forall x | x in t[1..]
        ensures x in s[1..]
      {
        assert x in t && x != t[0];
      }
      AscendingUnique(s[1..], t[1..]);
    }
  }

  // --------------------------------------------------------- parsing and printing

  /** A body fits the length field of its tag. */
  predicate Fits(tag: Byte, body: seq<Byte>) { |body| < Pow256(Width(tag)) }

  function EncodeChunk(tag: Byte, body: seq<Byte>): (data: seq<Byte>) {
    [tag] + Pack(|body|, Width(tag)) + body
  }

  /** A chunk is its tag, its length, in two bytes for the tags from a to d and in four for others, and its body. */
  lemma ChunkLayout(tag: Byte, body: seq<Byte>)
    requires Fits(tag, body)
    ensures var data, k := EncodeChunk(tag, body), if 97 <= tag <= 100 then 2 else 4;
            && |data| == 1 + k + |body| && data[0] == tag && data[1 + k..] == body
            && |body| == if k == 2 then BigEndian2(data[1], data[2]) else BigEndian4(data[1], data[2], data[3], data[4])
  {
    var data, k := EncodeChunk(tag, body), Width(tag);
    UnpackPack(|body|, k);
    assert data[1..1 + k] == Pack(|body|, k);
    if k == 2 {
      BigEndian(data[1], data[2], 0, 0);
      assert data[1..3] == [data[1], data[2]];
    } else {
      BigEndian(data[1], data[2], data[3], data[4]);
      assert data[1..5] == [data[1], data[2], data[3], data[4]];
    }
  }

  function Encode(tags: seq<Byte>, m: Chunks): (data: seq<Byte>)
    requires forall t :: t in tags ==> Has(m, t)
  {
    if tags == [] then []
    else
      assert Has(m, tags[0]);
      EncodeChunk(tags[0], m[[tags[0]]]) + Encode(tags[1..], m)
  }

  /** Every tag is one byte long and every body fits. */
  predicate Printable(m: Chunks) {
    forall t :: t in m ==> |t| == 1 && Fits(t[0], m[t])
  }

  /** `tostring`. */
  function Print(m: Chunks): (r: Printed) {
    if !Printable(m) then Raised
    else
      SortedTagsMeaning(m);
      Text(MAGIC + Encode(SortedTags(m), m))
  }

  /** The first chunk of some data and what follows it, or `Short` if its length field is cut off. */
  datatype First = First(tag: Byte, body: seq<Byte>, complete: bool, rest: seq<Byte>) | Short

  /** A body that is cut off by the end of the data is taken as far as it goes. */
  function FirstChunk(data: seq<Byte>): (f: First)
    requires data != []
    ensures f.First? ==> |f.rest| < |data|
  {
    var tag, k := data[0], Width(data[0]);
    if |data| < 1 + k then Short
    else
      var size, rest := Unpack(data[1..1 + k]), data[1 + k..];
      if size <= |rest| then First(tag, rest[..size], true, rest[size..]) else First(tag, rest, false, [])
  }

  /** The chunk loop of `fromstring` on the rest of the data, with the chunks seen so far. */
  function ParseChunks(data: seq<Byte>, seen: Chunks): (r: Parsed)
    decreases |data|
  {
    if data == [] then Ok(seen)
    else
      match FirstChunk(data)
      case Short => Err(ShortLength)
      case First(tag, body, _, rest) =>
        if [tag] in seen then Err(Duplicate) else ParseChunks(rest, seen[[tag] := body])
  }

  predicate StartsWith(data: seq<Byte>, prefix: seq<Byte>) {
    |prefix| <= |data| && data[..|prefix|] == prefix
  }

  /** `fromstring`. */
  function Parse(data: seq<Byte>): (r: Parsed) {
    if !StartsWith(data, MAGIC) then Err(BadMagic) else ParseChunks(data[|MAGIC|..], map[])
  }

  // --------------------------------------------------------------- round trips

  lemma FirstOfEncoded(tag: Byte, body: seq<Byte>, more: seq<Byte>)
    requires Fits(tag, body)
    ensures FirstChunk(EncodeChunk(tag, body) + more) == First(tag, body, true, more)
  {
    var data, k := EncodeChunk(tag, body) + more, Width(tag);
    UnpackPack(|body|, k);
    assert data[1..1 + k] == Pack(|body|, k);
    assert data[1 + k..] == body + more;
    assert (body + more)[..|body|] == body && (body + more)[|body|..] == more;
  }

  lemma BodyFits(data: seq<Byte>)
    requires data != [] && FirstChunk(data).First?
    ensures Fits(FirstChunk(data).tag, FirstChunk(data).body)
  {
    PackUnpack(data[1..1 + Width(data[0])]);
  }

  lemma CompleteIsEncoded(data: seq<Byte>)
    requires data != [] && FirstChunk(data).First? && FirstChunk(data).complete
    ensures var f := FirstChunk(data); data == EncodeChunk(f.tag, f.body) + f.rest
  {
    var k := Width(data[0]);
    PackUnpack(data[1..1 + k]);
    FourParts(data, 1 + k, Unpack(data[1..1 + k]));
  }

  lemma FourParts(data: seq<Byte>, i: nat, n: nat)
    requires 1 <= i <= |data| && n <= |data| - i
    ensures data == [data[0]] + data[1..i] + data[i..][..n] + data[i..][n..]
  {
    assert data[i..] == data[i..][..n] + data[i..][n..];
    assert data == data[..i] + data[i..];
    assert data[..i] == [data[0]] + data[1..i];
  }

  /** The chunks with the given tags. */
  function Only(m: Chunks, tags: seq<Byte>): (m': Chunks) {
    map t | t in m && |t| == 1 && t[0] in tags :: m[t]
  }

  /** The tags are in the dictionary and their bodies fit. */
  predicate AllFit(tags: seq<Byte>, m: Chunks) {
    forall t :: t in tags ==> Has(m, t) && Fits(t, m[[t]])
  }

  lemma OnlyStep(m: Chunks, tags: seq<Byte>, seen: Chunks)
    requires tags != [] && Has(m, tags[0])
    ensures seen[[tags[0]] := m[[tags[0]]]] + Only(m, tags[1..]) == seen + Only(m, tags)
  {
    assert tags == [tags[0]] + tags[1..];
    assert forall t: seq<Byte> :: |t| == 1 && t[0] == tags[0] ==> t == [tags[0]];
  }

  /** Parsing encoded chunks gives them back. */
  lemma {:induction false} ParseEncode(tags: seq<Byte>, m: Chunks, seen: Chunks)
    requires Ascending(tags) && AllFit(tags, m) && forall t :: t in tags ==> !Has(seen, t)
    ensures ParseChunks(Encode(tags, m), seen) == Ok(seen + Only(m, tags))
    decreases |tags|
  {
    if tags != [] {
      var tag := tags[0];
      assert tag in tags;
      FirstOfEncoded(tag, m[[tag]], Encode(tags[1..], m));
      OnlyStep(m, tags, seen);
      var seen' := seen[[tag] := m[[tag]]];
      forall t | t in tags[1..]
        ensures !Has(seen', t)
      {
        assert t in tags && t != tag;
      }
      ParseEncode(tags[1..], m, seen');
    }
  }

  lemma OnlyAll(m: Chunks, tags: seq<Byte>)
    requires Printable(m) && forall t :: t in tags <==> Has(m, t)
    ensures AllFit(tags, m) && map[] + Only(m, tags) == m
  {
    forall t | t in m
      ensures t in Only(m, tags)
    {
      assert t == [t[0]] && Has(m, t[0]);
    }
  }

  /** Printing succeeds exactly on one-byte tags with bodies that fit, and parsing undoes it. */
  lemma ParsePrint(m: Chunks)
    ensures Print(m).Text? <==> Printable(m)
    ensures Printable(m) ==> Parse(Print(m).data) == Ok(m)
  {
    if Printable(m) {
      var tags := SortedTags(m);
      SortedTagsMeaning(m);
      var data := Print(m).data;
      assert data[|MAGIC|..] == Encode(tags, m) && data[..|MAGIC|] == MAGIC;
      OnlyAll(m, tags);
      ParseEncode(tags, m, map[]);
    }
  }

  /**
   The chunks are all complete and stand in ascending order, from an order greater than
   `last` on: something a reader of the string can see without building the dictionary.
   */
  predicate Canonical(data: seq<Byte>, last: int)
    decreases |data|
  {
    data == [] ||
    match FirstChunk(data)
    case Short => false
    case First(tag, _, complete, rest) => complete && last < Order(tag) && Canonical(rest, Order(tag))
  }

  lemma {:induction false} EncodeCanonical(tags: seq<Byte>, m: Chunks, last: int)
    requires Ascending(tags) && AllFit(tags, m) && forall t :: t in tags ==> last < Order(t)
    ensures Canonical(Encode(tags, m), last)
    decreases |tags|
  {
    if tags != [] {
      assert tags[0] in tags;
      FirstOfEncoded(tags[0], m[[tags[0]]], Encode(tags[1..], m));
      EncodeCanonical(tags[1..], m, Order(tags[0]));
    }
  }

  /** What parsing has seen stays, and what it adds is one byte long and fits. */
  lemma {:induction false} ParsedPrintable(data: seq<Byte>, seen: Chunks)
    requires Printable(seen) && ParseChunks(data, seen).Ok?
    ensures Printable(ParseChunks(data, seen).chunks)
    ensures forall t :: t in seen ==> t in ParseChunks(data, seen).chunks && ParseChunks(data, seen).chunks[t] == seen[t]
    decreases |data|
  {
    if data != [] {
      var f := FirstChunk(data);
      BodyFits(data);
      ParsedPrintable(f.rest, seen[[f.tag] := f.body]);
    }
  }

  /** `tags` are those that parsing some data adds to what has been seen, and the data encodes them. */
  ghost predicate Encodes(data: seq<Byte>, tags: seq<Byte>, m: Chunks, seen: Chunks, last: int) {
    && Ascending(tags) && (forall t :: t in tags ==> Has(m, t) && last < Order(t))
    && (forall t :: Has(m, t) ==> Has(seen, t) || t in tags)
    && data == Encode(tags, m)
  }

  lemma HasUpdate(seen: Chunks, tag: Byte, body: seq<Byte>, t: Byte)
    ensures Has(seen[[tag] := body], t) <==> Has(seen, t) || t == tag
  {
    assert [t] == [tag] <==> t == tag by {
      assert [t][0] == t && [tag][0] == tag;
    }
  }

  lemma AscendingCons(tag: Byte, tags: seq<Byte>)
    requires Ascending(tags) && forall t :: t in tags ==> Order(tag) < Order(t)
    ensures Ascending([tag] + tags)
  {
    assert forall i :: 0 <= i < |tags| ==> tags[i] in tags;
  }

  lemma EncodesMore(f: First, tags: seq<Byte>, m: Chunks, seen: Chunks, last: int)
    requires f.First? && last < Order(f.tag) && Has(m, f.tag) && m[[f.tag]] == f.body
    requires Encodes(f.rest, tags, m, seen[[f.tag] := f.body], Order(f.tag))
    ensures Encodes(EncodeChunk(f.tag, f.body) + f.rest, [f.tag] + tags, m, seen, last)
  {
    var all, seen' := [f.tag] + tags, seen[[f.tag] := f.body];
    AscendingCons(f.tag, tags);
    forall t | Has(m, t)
      ensures Has(seen, t) || t in all
    {
      HasUpdate(seen, f.tag, f.body, t);
      assert Has(seen', t) || t in tags;
    }
    assert EncodeChunk(f.tag, f.body) + f.rest == Encode(all, m) by {
      assert all[0] == f.tag && all[1..] == tags;
    }
  }

  /** Canonical chunks are the encoding of their tags. */
  lemma {:induction false} CanonicalIsEncoding(data: seq<Byte>, seen: Chunks, last: int) returns (tags: seq<Byte>)
    requires Printable(seen) && Canonical(data, last) && ParseChunks(data, seen).Ok?
    ensures Encodes(data, tags, ParseChunks(data, seen).chunks, seen, last)
    decreases |data|
  {
    if data == [] {
      tags := [];
    } else {
      var f := FirstChunk(data);
      CompleteIsEncoded(data);
      BodyFits(data);
      var seen' := seen[[f.tag] := f.body];
      var rest := CanonicalIsEncoding(f.rest, seen', Order(f.tag));
      ParsedPrintable(f.rest, seen');
      assert [f.tag] in seen';
      tags := [f.tag] + rest;
      EncodesMore(f, rest, ParseChunks(f.rest, seen').chunks, seen, last);
    }
  }

  /**
   Printing a parsed string always succeeds, and gives the string back if and only if its
   chunks are complete and in ascending order.
   */
  lemma PrintParse(data: seq<Byte>)
    requires Parse(data).Ok?
    ensures var r := Print(Parse(data).chunks);
            r.Text? && (r.data == data <==> Canonical(data[|MAGIC|..], -1))
  {
    var rest := data[|MAGIC|..];
    var m := Parse(data).chunks;
    ParsedPrintable(rest, map[]);
    EncodingIff(rest, m);
    assert data == MAGIC + rest;
    assert Print(m).data[|MAGIC|..] == Encode(SortedTags(m), m);
  }

  lemma SortedCanonical(m: Chunks)
    requires Printable(m)
    ensures (forall t :: t in SortedTags(m) ==> Has(m, t)) && Canonical(Encode(SortedTags(m), m), -1)
  {
    SortedTagsMeaning(m);
    OnlyAll(m, SortedTags(m));
    EncodeCanonical(SortedTags(m), m, -1);
  }

  lemma EncodesSorted(data: seq<Byte>, tags: seq<Byte>, m: Chunks)
    requires Encodes(data, tags, m, map[], -1)
    ensures tags == SortedTags(m)
  {
    SortedTagsMeaning(m);
    AscendingUnique(tags, SortedTags(m));
  }

  lemma EncodingIff(data: seq<Byte>, m: Chunks)
    requires ParseChunks(data, map[]) == Ok(m) && Printable(m)
    ensures (forall t :: t in SortedTags(m) ==> Has(m, t)) && (data == Encode(SortedTags(m), m) <==> Canonical(data, -1))
  {
    SortedCanonical(m);
    if Canonical(data, -1) {
      var tags := CanonicalIsEncoding(data, map[], -1);
      EncodesSorted(data, tags, m);
    }
  }

  /** Printing a parsed string puts it in canonical form without changing what it holds. */
  lemma PrintNormalises(data: seq<Byte>)
    requires Parse(data).Ok?
    ensures var r := Print(Parse(data).chunks);
            r.Text? && Parse(r.data) == Parse(data) && Print(Parse(r.data).chunks) == r
  {
    ParsedPrintable(data[|MAGIC|..], map[]);
    ParsePrint(Parse(data).chunks);
  }

  // ------------------------------------------------------------------- methods

  /** The data from position `i` on, as a Python slice. */
  function From(data: seq<Byte>, i: nat): (rest: seq<Byte>) { if i <= |data| then data[i..] else [] }

  /** Reading the chunk at position `i` as the loop does gives the first chunk of the rest. */
  lemma ChunkAt(data: seq<Byte>, i: nat)
    requires i < |data|
    ensures var k := Width(data[i]);
            var field := data[i + 1..Clip(data, i + 1 + k)];
            if |field| < k then FirstChunk(data[i..]).Short?
            else
              var j := i + 1 + k;
              var end := j + Unpack(field);
              && j <= |data|
              && FirstChunk(data[i..]) == First(data[i], data[j..Clip(data, end)], end <= |data|, From(data, end))
  {
    var k := Width(data[i]);
    var rest := data[i..];
    if 1 + k <= |rest| {
      assert data[i + 1..i + 1 + k] == rest[1..1 + k];
      assert rest[1 + k..] == data[i + 1 + k..];
    }
  }

  /** What one turn of the loop does to the outcome of the parse. */
  lemma ParseAt(data: seq<Byte>, i: nat, chunks: Chunks, f: First)
    requires i < |data| && f == FirstChunk(data[i..])
    ensures ParseChunks(From(data, i), chunks) ==
            if f.Short? then Err(ShortLength)
            else if [f.tag] in chunks then Err(Duplicate)
            else ParseChunks(f.rest, chunks[[f.tag] := f.body])
  {
  }

  /** Reads one chunk; `found` is false if its length field is cut off. */
  method ReadChunk(data: seq<Byte>, i: nat) returns (found: bool, tag: Byte, chunkdata: seq<Byte>, i': nat)
    requires i < |data|
    ensures !found ==> FirstChunk(data[i..]).Short?
    ensures found ==> i < i' && FirstChunk(data[i..]) == First(tag, chunkdata, i' <= |data|, From(data, i'))
  {
    ChunkAt(data, i);
    tag := data[i];
    var k := Width(tag);
    var field := data[i + 1..Clip(data, i + 1 + k)];
    if |field| < k {
      return false, tag, [], i;
    }
    var chunksize := Unpack(field);
    i' := i + 1 + k;
    chunkdata := data[i'..Clip(data, i' + chunksize)];
    i' := i' + chunksize;
    found := true;
  }

  /** `BitFile.fromstring`. */
  method FromString(data: seq<Byte>) returns (r: Parsed)
    ensures r == Parse(data)
  {
    if !StartsWith(data, MAGIC) {
      return Err(BadMagic);
    }
    var i := |MAGIC|;
    var chunks: Chunks := map[];
    while i < |data|
      invariant 0 <= i && Parse(data) == ParseChunks(From(data, i), chunks)
      decreases |data| - i
    {
      ParseAt(data, i, chunks, FirstChunk(data[i..]));
      var found, tag, chunkdata, next := ReadChunk(data, i);
      if !found {
        return Err(ShortLength);
      }
      if [tag] in chunks {
        return Err(Duplicate);
      }
      chunks, i := chunks[[tag] := chunkdata], next;
    }
    assert From(data, i) == [];
    return Ok(chunks);
  }

  /** Python slices stop at the end of the string. */
  function Clip(data: seq<Byte>, i: nat): (j: nat) { if i <= |data| then i else |data| }

  /** What the first `n` chunks add to the text. */
  lemma EncodeFrom(tags: seq<Byte>, n: nat, m: Chunks)
    requires n < |tags| && forall t :: t in tags ==> Has(m, t)
    ensures Has(m, tags[n])
    ensures Encode(tags[n..], m) == EncodeChunk(tags[n], m[[tags[n]]]) + Encode(tags[n + 1..], m)
  {
    assert tags[n] in tags && tags[n..][1..] == tags[n + 1..];
  }

  lemma PrintableIff(m: Chunks, tags: seq<Byte>)
    requires (forall t :: t in m ==> |t| == 1) && forall t :: t in tags <==> Has(m, t)
    ensures AllFit(tags, m) <==> Printable(m)
  {
    if AllFit(tags, m) {
      forall t | t in m
        ensures Fits(t[0], m[t])
      {
        assert t == [t[0]] && Has(m, t[0]);
      }
    }
  }

  /** `BitFile.tostring`; `sorted` is taken as given for one-byte tags. */
  method ToString(chunks: Chunks) returns (r: Printed)
    ensures r == Print(chunks)
  {
    if exists t :: t in chunks && |t| != 1 {
      return Raised;
    }
    var tags := SortedTags(chunks);
    SortedTagsMeaning(chunks);
    PrintableIff(chunks, tags);
    r := PrintTags(tags, chunks);
  }

  /** The loop of `tostring`. */
  method PrintTags(tags: seq<Byte>, chunks: Chunks) returns (r: Printed)
    requires forall t :: t in tags ==> Has(chunks, t)
    ensures r == if AllFit(tags, chunks) then Text(MAGIC + Encode(tags, chunks)) else Raised
  {
    var result := MAGIC;
    var n := 0;
    assert tags[0..] == tags;
    while n < |tags|
      invariant 0 <= n <= |tags| && AllFit(tags[..n], chunks)
      invariant result + Encode(tags[n..], chunks) == MAGIC + Encode(tags, chunks)
    {
      EncodeFrom(tags, n, chunks);
      var tag := tags[n];
      var body := chunks[[tag]];
      if |body| >= Pow256(Width(tag)) {
        assert tag in tags && !AllFit(tags, chunks);
        return Raised;
      }
      assert tags[..n + 1] == tags[..n] + [tag];
      result, n := PrintChunk(result, tag, body), n + 1;
    }
    assert tags[..n] == tags;
    return Text(result);
  }

  function PrintChunk(result: seq<Byte>, tag: Byte, body: seq<Byte>): (result': seq<Byte>)
    ensures result' == result + EncodeChunk(tag, body)
  {
    result + [tag] + Pack(|body|, Width(tag)) + body
  }
}
