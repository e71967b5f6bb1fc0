/**
 Model of `Material::load` (src/support/material.rs): a material is assembled by
 reading chunks one at a time and letting each recognised chunk overwrite some of
 its fields, until a `Null` chunk ends the record.

 The chunk decoder `Chunk::load` is not part of this model. It is represented by a
 `ChunkSource`: the chunks that successive calls return, followed by the error that
 the first failing call returns (a finite file always ends in such an error).
 A `panic!` or `unimplemented!()` is kept apart from an error return: it is the
 `Abort` outcome.
 */
module Material {

  datatype Option<T> = None | Some(value: T)

  /** Unsigned 32-bit integer, the type of a file header's `file_type`. */
  newtype u32 = x: int | 0 <= x < 0x1_0000_0000

  /** An `f32` held as its IEEE-754 bit pattern: parameters are only copied, never computed with. */
  type F32Bits = bv32

  /** The twelve shading parameters of a material (`[f32; 12]`). */
  type Params = p: seq<F32Bits> | |p| == 12 witness ZeroParams()

  /** Twelve `0.0f32` values (the bit pattern of +0.0 is all zeros). */
  function ZeroParams(): seq<F32Bits> { seq(12, _ => 0) }

  /**
   The `file_type` a material file's header must carry (`support::MATERIAL_FILE_TYPE`).
   Its value is defined in a file that is not part of this model, so it is left unspecified.
   */
  const MaterialFileType: u32

  /** A decoded chunk. Every variant the material loader does not handle is `Other`. */
  datatype Chunk =
    | FileHeader(fileType: u32)
    | MaterialDesc(name: string, params: Params)
    | PixelmapRef(name: string)
    | RenderTabRef(name: string)
    | Null
    | Other(tag: u32)

  /** The material record: shading parameters, its own name and the names it refers to. */
  datatype Material = Material(params: Params, name: string, pixelmapName: string, rendertabName: string)

  /** Why the loader aborts instead of returning. */
  datatype Panic =
    | InvalidFileType(fileType: u32)   // panic!("Invalid material file type ...")
    | Unimplemented(chunk: Chunk)      // unimplemented!() on an unexpected chunk

  /** What `load` ends with: a material, the reader's error passed through by `?`, or an abort. */
  datatype Outcome<E> = Ok(material: Material) | Err(error: E) | Abort(panic: Panic)

  /** What one call of `Chunk::load` returns. */
  datatype ChunkRead<E> = Read(chunk: Chunk) | ReadFailed(error: E)

  /** The reader as seen through `Chunk::load`: its chunks in order, then a failure. */
  datatype ChunkSource<E> = ChunkSource(chunks: seq<Chunk>, failure: E) {
    /** The result of the call to `Chunk::load` made after `pos` chunks were read. */
    function LoadAt(pos: nat): ChunkRead<E> {
      if pos < |chunks| then Read(chunks[pos]) else ReadFailed(failure)
    }
  }

  /** `Material::default()`. */
  function Default(): (m: Material)
    ensures forall i :: 0 <= i < |m.params| ==> m.params[i] == 0
    ensures m.name == "" && m.pixelmapName == "" && m.rendertabName == ""
  {
    Material(ZeroParams(), "", "", "")
  }

  /** The chunks that let the loop go on: the three setters and a header of the right file type. */
  predicate Accepted(c: Chunk) {
    || c.MaterialDesc?
    || c.PixelmapRef?
    || c.RenderTabRef?
    || (c.FileHeader? && c.fileType == MaterialFileType)
  }

  /** The effect of one chunk on the loop. */
  datatype Step = Continue(material: Material) | Stop | Panics(panic: Panic)

  /** One pass of the loop body: the `match` on the chunk just read. */
  function Apply(m: Material, c: Chunk): (s: Step)
    ensures s.Continue? <==> Accepted(c)
    ensures s.Stop? <==> c.Null?
    ensures s.Panics? && c.FileHeader? ==> s.panic == InvalidFileType(c.fileType)
    ensures s.Panics? && !c.FileHeader? ==> s.panic == Unimplemented(c)
    // each setter changes its own fields and no other
    ensures s.Continue? ==> s.material.pixelmapName == (if c.PixelmapRef? then c.name else m.pixelmapName)
    ensures s.Continue? ==> s.material.rendertabName == (if c.RenderTabRef? then c.name else m.rendertabName)
    ensures s.Continue? ==> s.material.name == (if c.MaterialDesc? then c.name else m.name)
    ensures s.Continue? ==> s.material.params == (if c.MaterialDesc? then c.params else m.params)
  {
    match c
    case MaterialDesc(name, params) => Continue(m.(params := params, name := name))
    case PixelmapRef(name) => Continue(m.(pixelmapName := name))
    case RenderTabRef(name) => Continue(m.(rendertabName := name))
    case Null => Stop
    case FileHeader(fileType) =>
      if fileType != MaterialFileType then Panics(InvalidFileType(fileType)) else Continue(m)
    case Other(_) => Panics(Unimplemented(c))
  }

  /** The loop of `Material::load`, run from material `m` over the chunks `cs` followed by `failure`. */
  function Run<E>(m: Material, cs: seq<Chunk>, failure: E): Outcome<E>
    decreases |cs|
  {
    if cs == [] then Err(failure)
    else match Apply(m, cs[0])
      case Continue(next) => Run(next, cs[1..], failure)
      case Stop => Ok(m)
      case Panics(p) => Abort(p)
  }

  /** What `Material::load` returns for a reader. */
  function LoadSpec<E>(src: ChunkSource<E>): Outcome<E> {
    Run(Default(), src.chunks, src.failure)
  }

  /** Index of the first chunk that ends the loop (`Null` or an abort), or `|cs|` if there is none. */
  function FirstStop(cs: seq<Chunk>): (k: nat)
    ensures k <= |cs|
    ensures forall i :: 0 <= i < k ==> Accepted(cs[i])
    ensures k < |cs| ==> !Accepted(cs[k])
  {
    if cs == [] || !Accepted(cs[0]) then 0 else 1 + FirstStop(cs[1..])
  }

  /** The number of chunks `load` reads from a source before it returns or aborts. */
  function ChunksRead(cs: seq<Chunk>): nat {
    if FirstStop(cs) < |cs| then FirstStop(cs) + 1 else |cs|
  }

  /**
   `Material::load`: reads chunks until `Null`, updating a local material field by field.
   Returns the outcome and the number of chunks taken from the source.
   */
  method Load<E>(src: ChunkSource<E>) returns (r: Outcome<E>, consumed: nat)
    ensures r == LoadSpec(src)
    ensures consumed == ChunksRead(src.chunks)
  {
    var mat := Default();
    var pos := 0;
    while true
      invariant pos <= |src.chunks|
      invariant forall i :: 0 <= i < pos ==> Accepted(src.chunks[i])
      invariant Run(mat, src.chunks[pos..], src.failure) == LoadSpec(src)
      decreases |src.chunks| - pos
    {
      var read := src.LoadAt(pos);
      if read.ReadFailed? {
        return Err(read.error), pos;
      }
      var c := read.chunk;
      pos := pos + 1;
      match c
      case MaterialDesc(name, params) =>
        mat := mat.(params := params);
        mat := mat.(name := name);
      case PixelmapRef(name) =>
        mat := mat.(pixelmapName := name);
      case RenderTabRef(name) =>
        mat := mat.(rendertabName := name);
      case Null =>
        break;
      case FileHeader(fileType) =>
        if fileType != MaterialFileType {
          return Abort(InvalidFileType(fileType)), pos;
        }
      case Other(_) =>
        return Abort(Unimplemented(c)), pos;
    }
    r := Ok(mat);
    consumed := pos;
  }

  // ---------------------------------------------------------------------------
  // Last writer wins: an independent description of the fields, by searching
  // the chunks backwards for the last one that writes each field.

  /** The groups of fields that a chunk can write. */
  datatype Field = DescFields | PixelmapField | RenderTabField

  predicate Writes(c: Chunk, f: Field) {
    match f
    case DescFields => c.MaterialDesc?
    case PixelmapField => c.PixelmapRef?
    case RenderTabField => c.RenderTabRef?
  }

  /** Index of the last chunk of `cs` that writes `f`, if any. */
  function LastWriter(cs: seq<Chunk>, f: Field): (r: Option<nat>)
    ensures r.Some? ==> r.value < |cs| && Writes(cs[r.value], f)
    ensures r.Some? ==> forall j :: r.value < j < |cs| ==> !Writes(cs[j], f)
    ensures r.None? ==> forall j :: 0 <= j < |cs| ==> !Writes(cs[j], f)
  {
    if cs == [] then None
    else if Writes(cs[|cs| - 1], f) then Some(|cs| - 1)
    else LastWriter(cs[..|cs| - 1], f)
  }

  /** Material `m` with every field taken from the last chunk of `cs` that writes it. */
  function Collected(m: Material, cs: seq<Chunk>): Material {
    var d := LastWriter(cs, DescFields);
    var p := LastWriter(cs, PixelmapField);
    var t := LastWriter(cs, RenderTabField);
    Material(
      if d.Some? then cs[d.value].params else m.params,
      if d.Some? then cs[d.value].name else m.name,
      if p.Some? then cs[p.value].name else m.pixelmapName,
      if t.Some? then cs[t.value].name else m.rendertabName)
  }

  /** Putting a chunk in front shifts the last writer, or makes that chunk the writer when there was none. */
  lemma {:induction false} LastWriterCons(c: Chunk, cs: seq<Chunk>, f: Field)
    decreases |cs|
    ensures LastWriter([c] + cs, f) ==
      match LastWriter(cs, f)
      case Some(i) => Some(i + 1)
      case None => if Writes(c, f) then Some(0) else None
  {
    var all := [c] + cs;
    if cs == [] {
      assert all == [c];
      assert all[..0] == [];
    } else {
      assert all[|all| - 1] == cs[|cs| - 1];
      assert all[..|all| - 1] == [c] + cs[..|cs| - 1];
      if !Writes(cs[|cs| - 1], f) {
        LastWriterCons(c, cs[..|cs| - 1], f);
      }
    }
  }

  lemma CollectedCons(m: Material, c: Chunk, cs: seq<Chunk>)
    requires Accepted(c)
    ensures Collected(m, [c] + cs) == Collected(Apply(m, c).material, cs)
  {
    var all := [c] + cs;
    assert all[0] == c;
    LastWriterCons(c, cs, DescFields);
    LastWriterCons(c, cs, PixelmapField);
    LastWriterCons(c, cs, RenderTabField);
    var d := LastWriter(cs, DescFields);
    var p := LastWriter(cs, PixelmapField);
    var t := LastWriter(cs, RenderTabField);
    if d.Some? { assert all[d.value + 1] == cs[d.value]; }
    if p.Some? { assert all[p.value + 1] == cs[p.value]; }
    if t.Some? { assert all[t.value + 1] == cs[t.value]; }
  }

  // ---------------------------------------------------------------------------
  // What `load` ends with, for every source.

  /**
   The loop's outcome is decided by the first chunk that is not accepted: a `Null` there
   gives the material made of the chunks before it, any other chunk aborts, and when every
   chunk is accepted the reader's own error is returned.
   */
  lemma {:induction false} RunOutcome<E>(m: Material, cs: seq<Chunk>, failure: E)
    decreases |cs|
    ensures var k := FirstStop(cs);
      Run(m, cs, failure) ==
        if k == |cs| then Err(failure)
        else if cs[k].Null? then Ok(Collected(m, cs[..k]))
        else if cs[k].FileHeader? then Abort(InvalidFileType(cs[k].fileType))
        else Abort(Unimplemented(cs[k]))
  {
    if cs == [] {
    } else if !Accepted(cs[0]) {
      assert cs[..0] == [];
    } else {
      var next := Apply(m, cs[0]).material;
      RunOutcome(next, cs[1..], failure);
      var k := FirstStop(cs[1..]);
      if k < |cs[1..]| {
        CollectedCons(m, cs[0], cs[1..][..k]);
        assert [cs[0]] + cs[1..][..k] == cs[..k + 1];
      }
    }
  }

  /** `load` returns `Ok` exactly when a `Null` is reached with every chunk before it accepted. */
  lemma OkIffNullReached<E>(m: Material, cs: seq<Chunk>, failure: E)
    ensures Run(m, cs, failure).Ok? <==>
      exists k :: 0 <= k < |cs| && cs[k].Null? && forall i :: 0 <= i < k ==> Accepted(cs[i])
  {
    RunOutcome(m, cs, failure);
    var k := FirstStop(cs);
    if exists j :: 0 <= j < |cs| && cs[j].Null? && forall i :: 0 <= i < j ==> Accepted(cs[i]) {
      var j :| 0 <= j < |cs| && cs[j].Null? && forall i :: 0 <= i < j ==> Accepted(cs[i]);
      assert !Accepted(cs[j]);
      assert k == j;
    }
  }

  /**
   `load` fails with an error exactly when the reader fails before any chunk stops the loop,
   and then the error is the reader's own, unchanged.
   */
  lemma ErrIsReaderError<E>(m: Material, cs: seq<Chunk>, failure: E)
    ensures Run(m, cs, failure).Err? <==> forall i :: 0 <= i < |cs| ==> Accepted(cs[i])
    ensures Run(m, cs, failure).Err? ==> Run(m, cs, failure).error == failure
  {
    RunOutcome(m, cs, failure);
  }

  /** Nothing after the first `Null` is read: neither the chunks there nor the reader's failure matter. */
  lemma {:induction false} NullEndsReading<E>(m: Material, pre: seq<Chunk>, rest: seq<Chunk>, failure: E, otherFailure: E)
    decreases |pre|
    ensures Run(m, pre + [Null] + rest, failure) == Run(m, pre + [Null], otherFailure)
  {
    if pre == [] {
      assert (pre + [Null] + rest)[0] == Null;
    } else {
      var s := pre + [Null] + rest;
      var t := pre + [Null];
      assert s[0] == t[0] == pre[0];
      assert s[1..] == pre[1..] + [Null] + rest;
      assert t[1..] == pre[1..] + [Null];
      match Apply(m, pre[0])
      case Continue(next) =>
        NullEndsReading(next, pre[1..], rest, failure, otherFailure);
      case Stop =>
      case Panics(_) =>
    }
  }

  /** A header of another file type, before any `Null`, aborts with that file type. */
  lemma HeaderMismatchAborts<E>(m: Material, pre: seq<Chunk>, fileType: u32, rest: seq<Chunk>, failure: E)
    requires forall i :: 0 <= i < |pre| ==> Accepted(pre[i])
    requires fileType != MaterialFileType
    ensures Run(m, pre + [FileHeader(fileType)] + rest, failure) == Abort(InvalidFileType(fileType))
  {
    var cs := pre + [FileHeader(fileType)] + rest;
    FirstStopAt(pre, FileHeader(fileType), rest);
    RunOutcome(m, cs, failure);
  }

  /** Any chunk variant the loader does not handle, before any `Null`, aborts. */
  lemma UnhandledChunkAborts<E>(m: Material, pre: seq<Chunk>, tag: u32, rest: seq<Chunk>, failure: E)
    requires forall i :: 0 <= i < |pre| ==> Accepted(pre[i])
    ensures Run(m, pre + [Other(tag)] + rest, failure) == Abort(Unimplemented(Other(tag)))
  {
    var cs := pre + [Other(tag)] + rest;
    FirstStopAt(pre, Other(tag), rest);
    RunOutcome(m, cs, failure);
  }

  /** The loop stops at the first chunk after an accepted prefix that is not accepted itself. */
  lemma FirstStopAt(pre: seq<Chunk>, c: Chunk, rest: seq<Chunk>)
    requires forall i :: 0 <= i < |pre| ==> Accepted(pre[i])
    requires !Accepted(c)
    ensures FirstStop(pre + [c] + rest) == |pre|
  {
    var cs := pre + [c] + rest;
    assert cs[|pre|] == c;
    assert forall i :: 0 <= i < |pre| ==> cs[i] == pre[i];
  }

  /**
   Reading a well-formed record (accepted chunks, then `Null`) gives the fields of the last
   chunk that writes each of them, over the default material.
   */
  lemma LoadRecord<E>(body: seq<Chunk>, rest: seq<Chunk>, failure: E)
    requires forall i :: 0 <= i < |body| ==> Accepted(body[i])
    ensures LoadSpec(ChunkSource(body + [Null] + rest, failure)) == Ok(Collected(Default(), body))
  {
    var cs := body + [Null] + rest;
    FirstStopAt(body, Null, rest);
    RunOutcome(Default(), cs, failure);
    assert cs[..|body|] == body;
  }

  /** A repeated `MaterialDesc`: the second one's name and parameters are kept. */
  lemma RepeatedDescLastWins<E>(m: Material, n1: string, p1: Params, n2: string, p2: Params, failure: E)
    ensures Run(m, [MaterialDesc(n1, p1), PixelmapRef("tex"), MaterialDesc(n2, p2), Null], failure)
         == Ok(m.(params := p2, name := n2, pixelmapName := "tex"))
  {
    var cs := [MaterialDesc(n1, p1), PixelmapRef("tex"), MaterialDesc(n2, p2), Null];
    var m1 := m.(params := p1, name := n1);
    var m2 := m1.(pixelmapName := "tex");
    var m3 := m2.(params := p2, name := n2);
    assert cs[1..] == [PixelmapRef("tex"), MaterialDesc(n2, p2), Null];
    assert cs[1..][1..] == [MaterialDesc(n2, p2), Null];
    assert cs[1..][1..][1..] == [Null];
    assert Run(m3, [Null], failure) == Ok(m3);
    assert Run(m2, cs[1..][1..], failure) == Ok(m3);
    assert Run(m1, cs[1..], failure) == Ok(m3);
  }

  /** A header, a description, a texture reference and the terminator make a complete material. */
  lemma EngineMaterial<E>(failure: E)
    ensures LoadSpec(ChunkSource(
              [FileHeader(MaterialFileType), MaterialDesc("engine", ZeroParams()), PixelmapRef("eng_tex"), Null],
              failure))
         == Ok(Material(ZeroParams(), "engine", "eng_tex", ""))
  {
    var body := [FileHeader(MaterialFileType), MaterialDesc("engine", ZeroParams()), PixelmapRef("eng_tex")];
    LoadRecord(body, [], failure);
    assert body + [Null] + [] == [FileHeader(MaterialFileType), MaterialDesc("engine", ZeroParams()), PixelmapRef("eng_tex"), Null];
    assert LastWriter(body, DescFields) == Some(1);
    assert LastWriter(body, PixelmapField) == Some(2);
    assert LastWriter(body, RenderTabField) == None;
  }
}
