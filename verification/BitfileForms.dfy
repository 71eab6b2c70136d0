/**
 Every string that the parser of lib/python/bitfile.py may be given: some complete chunks with tags of
 their own, and then nothing, a chunk that is cut off, or a tag that has been before.
 */
module BitfileForms {
  import opened Bitfile

  datatype Chunk = Chunk(tag: Byte, body: seq<Byte>)

  /** The chunks one after the other. */
  function Lay(cs: seq<Chunk>): (data: seq<Byte>) {
    if cs == [] then [] else EncodeChunk(cs[0].tag, cs[0].body) + Lay(cs[1..])
  }

  /** The dictionary with the chunks added. */
  function Load(cs: seq<Chunk>, seen: Chunks): (m: Chunks) {
    if cs == [] then seen else Load(cs[1..], seen[[cs[0].tag] := cs[0].body])
  }

  /** Every body fits and every tag is new. */
  predicate NewTags(cs: seq<Chunk>, seen: Chunks) {
    cs == [] ||
    (Fits(cs[0].tag, cs[0].body) && !Has(seen, cs[0].tag) && NewTags(cs[1..], seen[[cs[0].tag] := cs[0].body]))
  }

  /** Where the tags are new, the dictionary has exactly what was there and the chunks. */
  lemma {:induction false} LoadMeaning(cs: seq<Chunk>, seen: Chunks)
    requires NewTags(cs, seen)
    ensures forall t :: t in seen ==> t in Load(cs, seen) && Load(cs, seen)[t] == seen[t]
    ensures forall c :: c in cs ==> Has(Load(cs, seen), c.tag) && Load(cs, seen)[[c.tag]] == c.body
    ensures forall t :: t in Load(cs, seen) ==> t in seen || exists c :: c in cs && t == [c.tag]
  {
    if cs != [] {
      LoadMeaning(cs[1..], seen[[cs[0].tag] := cs[0].body]);
      assert cs == [cs[0]] + cs[1..];
    }
  }

  lemma {:induction false} ParseLaid(cs: seq<Chunk>, rest: seq<Byte>, seen: Chunks)
    requires NewTags(cs, seen)
    ensures ParseChunks(Lay(cs) + rest, seen) == ParseChunks(rest, Load(cs, seen))
  {
    if cs == [] {
      assert Lay(cs) + rest == rest;
    } else {
      var tag, body, more := cs[0].tag, cs[0].body, Lay(cs[1..]) + rest;
      assert Lay(cs) + rest == EncodeChunk(tag, body) + more;
      FirstOfEncoded(tag, body, more);
      ParseLaid(cs[1..], rest, seen[[tag] := body]);
    }
  }

  // -------------------------------------------------------------------- endings

  /** The length of a chunk is cut off. */
  predicate LengthCut(rest: seq<Byte>) { rest != [] && |rest| < 1 + if 97 <= rest[0] <= 100 then 2 else 4 }

  /** A chunk whose length says more than there is. */
  predicate BodyCut(rest: seq<Byte>, tag: Byte, body: seq<Byte>, n: nat) {
    |body| < n < Pow256(Width(tag)) && rest == [tag] + Pack(n, Width(tag)) + body
  }

  /** A chunk, complete or cut off, whose tag has been before. */
  predicate TagAgain(rest: seq<Byte>, seen: Chunks) { rest != [] && !LengthCut(rest) && Has(seen, rest[0]) }

  lemma LengthCutFails(rest: seq<Byte>, seen: Chunks)
    requires LengthCut(rest)
    ensures ParseChunks(rest, seen) == Err(ShortLength)
  {
  }

  lemma TagAgainFails(rest: seq<Byte>, seen: Chunks)
    requires TagAgain(rest, seen)
    ensures ParseChunks(rest, seen) == Err(Duplicate)
  {
  }

  /** A body that is cut off is taken as far as it goes. */
  lemma BodyCutTaken(rest: seq<Byte>, tag: Byte, body: seq<Byte>, n: nat, seen: Chunks)
    requires BodyCut(rest, tag, body, n) && !Has(seen, tag)
    ensures ParseChunks(rest, seen) == Ok(seen[[tag] := body])
  {
    var k := Width(tag);
    UnpackPack(n, k);
    assert rest[1..1 + k] == Pack(n, k) && rest[1 + k..] == body;
    assert FirstChunk(rest) == First(tag, body, false, []);
  }

  /** What follows the complete chunks. */
  datatype End = Nothing | ShortOf | Again | CutOff(tag: Byte, body: seq<Byte>, n: nat)

  predicate EndsAs(end: End, rest: seq<Byte>, seen: Chunks) {
    match end
    case Nothing => rest == []
    case ShortOf => LengthCut(rest)
    case Again => TagAgain(rest, seen)
    case CutOff(tag, body, n) => BodyCut(rest, tag, body, n) && !Has(seen, tag)
  }

  /** What the parser makes of that. */
  function Outcome(end: End, m: Chunks): Parsed {
    match end
    case Nothing => Ok(m)
    case ShortOf => Err(ShortLength)
    case Again => Err(Duplicate)
    case CutOff(tag, body, _) => Ok(m[[tag] := body])
  }

  lemma EndParsed(end: End, rest: seq<Byte>, seen: Chunks)
    requires EndsAs(end, rest, seen)
    ensures ParseChunks(rest, seen) == Outcome(end, seen)
  {
    match end
    case Nothing =>
    case ShortOf => LengthCutFails(rest, seen);
    case Again => TagAgainFails(rest, seen);
    case CutOff(tag, body, n) => BodyCutTaken(rest, tag, body, n, seen);
  }

  /** Every string is some complete chunks with new tags and one of these endings. */
  lemma {:induction false} EveryForm(data: seq<Byte>, seen: Chunks) returns (cs: seq<Chunk>, rest: seq<Byte>, end: End)
    ensures data == Lay(cs) + rest && NewTags(cs, seen) && EndsAs(end, rest, Load(cs, seen))
    decreases |data|
  {
    cs, rest := [], data;
    if data == [] {
      end := Nothing;
    } else if LengthCut(data) {
      end := ShortOf;
    } else if Has(seen, data[0]) {
      end := Again;
    } else {
      var f := FirstChunk(data);
      BodyFits(data);
      if f.complete {
        CompleteIsEncoded(data);
        cs, rest, end := EveryForm(f.rest, seen[[f.tag] := f.body]);
        cs := [Chunk(f.tag, f.body)] + cs;
        assert cs[1..] + [] == cs[1..];
        assert Lay(cs) == EncodeChunk(f.tag, f.body) + Lay(cs[1..]);
      } else {
        end := CutBodyOf(data);
      }
    }
  }

  lemma CutBodyOf(data: seq<Byte>) returns (end: End)
    requires data != [] && !LengthCut(data) && !FirstChunk(data).complete
    ensures end.CutOff? && end.tag == data[0] && BodyCut(data, end.tag, end.body, end.n)
  {
    var k := Width(data[0]);
    PackUnpack(data[1..1 + k]);
    end := CutOff(data[0], data[1 + k..], Unpack(data[1..1 + k]));
    assert data == [data[0]] + data[1..1 + k] + data[1 + k..];
  }

  /** The string is the magic number, the chunks and the ending. */
  ghost predicate HasForm(data: seq<Byte>, cs: seq<Chunk>, rest: seq<Byte>, end: End) {
    data == MAGIC + (Lay(cs) + rest) && NewTags(cs, map[]) && EndsAs(end, rest, Load(cs, map[]))
  }

  lemma FormParsed(data: seq<Byte>, cs: seq<Chunk>, rest: seq<Byte>, end: End)
    requires HasForm(data, cs, rest, end)
    ensures StartsWith(data, MAGIC) && Parse(data) == Outcome(end, Load(cs, map[]))
  {
    assert data[..|MAGIC|] == MAGIC && data[|MAGIC|..] == Lay(cs) + rest;
    ParseLaid(cs, rest, map[]);
    EndParsed(end, rest, Load(cs, map[]));
  }

  /**
   What the parser gives for every string: without the magic number an error; with it, the string has one
   of the forms, which decides the result.
   */
  lemma ParseExact(data: seq<Byte>) returns (cs: seq<Chunk>, rest: seq<Byte>, end: End)
    ensures !StartsWith(data, MAGIC) <==> Parse(data) == Err(BadMagic)
    ensures StartsWith(data, MAGIC) ==>
              HasForm(data, cs, rest, end) && Parse(data) == Outcome(end, Load(cs, map[]))
  {
    cs, rest, end := [], [], Nothing;
    if StartsWith(data, MAGIC) {
      cs, rest, end := EveryForm(data[|MAGIC|..], map[]);
      assert data == MAGIC + data[|MAGIC|..];
      FormParsed(data, cs, rest, end);
    }
  }
}
