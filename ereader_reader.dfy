// The eReader PDB reader front (src/calibre/ebooks/pdb/ereader/reader.py):
// the byte size of record 0 picks one of two sub-readers, and every
// extraction call is handed to that sub-reader unchanged.

module EreaderReader {
  import opened Wrappers
  import Text

  /** The parsed PDB container header: the data of record 0
      (`section_data(0)`) and of the records after it. */
  datatype PdbHeader = PdbHeader(record0: Bytes, otherSections: seq<Bytes>)

  /** The sub-reader variants: Reader132 and Reader202. */
  datatype Variant = Reader132 | Reader202

  /** The arguments every sub-reader is built from. `Stream`, `Log` and
      `Options` are the caller's objects, passed through untouched. */
  datatype ReaderArgs<Stream, Log, Options> =
    ReaderArgs(header: PdbHeader, stream: Stream, log: Log, options: Options)

  /** The reader once built: the chosen variant and its arguments. */
  datatype Reader<Stream, Log, Options> =
    Reader(variant: Variant, args: ReaderArgs<Stream, Log, Options>)

  datatype EreaderError = EreaderError(message: string)

  datatype Result<T> = Ok(value: T) | Err(error: EreaderError)

  /** The message raised for an unsupported record-0 size. */
  function SizeMismatchMessage(size: nat): (m: string)
    ensures Text.Contains(m, Text.NatToString(size))
  {
    var prefix := "Size mismatch. eReader header record size ";
    var m := prefix + Text.NatToString(size) + " KB is not supported.";
    assert Text.OccursAt(m, Text.NatToString(size), |prefix|);
    m
  }

  /** The closed choice on the record-0 size. */
  function SelectVariant(record0Size: nat): (r: Result<Variant>)
    ensures r == Ok(Reader132) <==> record0Size == 132
    ensures r == Ok(Reader202) <==> record0Size == 116 || record0Size == 202
    ensures r.Err? <==> record0Size !in {116, 132, 202}
    ensures r.Err? ==> r.error.message == SizeMismatchMessage(record0Size)
  {
    if record0Size == 132 then Ok(Reader132)
    else if record0Size == 116 || record0Size == 202 then Ok(Reader202)
    else Err(EreaderError(SizeMismatchMessage(record0Size)))
  }

  /** `Reader.__init__` */
  function NewReader<Stream, Log, Options>(header: PdbHeader, stream: Stream, log: Log, options: Options)
    : (r: Result<Reader<Stream, Log, Options>>)
    ensures r.Ok? <==> SelectVariant(|header.record0|).Ok?
    ensures r.Ok? ==> (r.value.variant == SelectVariant(|header.record0|).value
                       && r.value.args == ReaderArgs(header, stream, log, options))
    ensures r.Err? ==> r.error == SelectVariant(|header.record0|).error
  {
    match SelectVariant(|header.record0|)
    case Ok(v) => Ok(Reader(v, ReaderArgs(header, stream, log, options)))
    case Err(e) => Err(e)
  }

  /** The choice depends on nothing but the length of record 0. */
  lemma ChoiceDependsOnlyOnRecord0Size<Stream, Log, Options>(
    h1: PdbHeader, h2: PdbHeader, s1: Stream, s2: Stream, l1: Log, l2: Log, o1: Options, o2: Options)
    requires |h1.record0| == |h2.record0|
    ensures NewReader(h1, s1, l1, o1).Ok? == NewReader(h2, s2, l2, o2).Ok?
    ensures NewReader(h1, s1, l1, o1).Ok? ==>
      NewReader(h1, s1, l1, o1).value.variant == NewReader(h2, s2, l2, o2).value.variant
  {
  }

  /** The behaviour of the two sub-readers, which this model cannot see:
      `extract_content(output_dir)`, `dump_pml()` and `dump_images(out_dir)`
      of each variant, as functions of its construction arguments. */
  datatype SubReaders<!Stream, !Log, !Options, Out> = SubReaders(
    extract132: (ReaderArgs<Stream, Log, Options>, string) -> Out,
    pml132: ReaderArgs<Stream, Log, Options> -> Out,
    images132: (ReaderArgs<Stream, Log, Options>, string) -> Out,
    extract202: (ReaderArgs<Stream, Log, Options>, string) -> Out,
    pml202: ReaderArgs<Stream, Log, Options> -> Out,
    images202: (ReaderArgs<Stream, Log, Options>, string) -> Out)

  function ExtractContent<Stream, Log, Options, Out>(
    subs: SubReaders<Stream, Log, Options, Out>, r: Reader<Stream, Log, Options>, outputDir: string): (o: Out)
    ensures r.variant == Reader132 ==> o == subs.extract132(r.args, outputDir)
    ensures r.variant == Reader202 ==> o == subs.extract202(r.args, outputDir)
  {
    match r.variant
    case Reader132 => subs.extract132(r.args, outputDir)
    case Reader202 => subs.extract202(r.args, outputDir)
  }

  function DumpPml<Stream, Log, Options, Out>(
    subs: SubReaders<Stream, Log, Options, Out>, r: Reader<Stream, Log, Options>): (o: Out)
    ensures r.variant == Reader132 ==> o == subs.pml132(r.args)
    ensures r.variant == Reader202 ==> o == subs.pml202(r.args)
  {
    match r.variant
    case Reader132 => subs.pml132(r.args)
    case Reader202 => subs.pml202(r.args)
  }

  function DumpImages<Stream, Log, Options, Out>(
    subs: SubReaders<Stream, Log, Options, Out>, r: Reader<Stream, Log, Options>, outDir: string): (o: Out)
    ensures r.variant == Reader132 ==> o == subs.images132(r.args, outDir)
    ensures r.variant == Reader202 ==> o == subs.images202(r.args, outDir)
  {
    match r.variant
    case Reader132 => subs.images132(r.args, outDir)
    case Reader202 => subs.images202(r.args, outDir)
  }

  /** Built from a 132-byte record 0, the reader returns what Reader132
      returns for the same arguments; from a 116- or 202-byte one, what
      Reader202 returns. */
  lemma ForwardingFromHeader<Stream, Log, Options, Out>(
    subs: SubReaders<Stream, Log, Options, Out>, header: PdbHeader, stream: Stream, log: Log,
    options: Options, dir: string)
    requires NewReader(header, stream, log, options).Ok?
    ensures var r := NewReader(header, stream, log, options).value;
            var args := ReaderArgs(header, stream, log, options);
            if |header.record0| == 132 then
              ExtractContent(subs, r, dir) == subs.extract132(args, dir)
              && DumpPml(subs, r) == subs.pml132(args)
              && DumpImages(subs, r, dir) == subs.images132(args, dir)
            else
              ExtractContent(subs, r, dir) == subs.extract202(args, dir)
              && DumpPml(subs, r) == subs.pml202(args)
              && DumpImages(subs, r, dir) == subs.images202(args, dir)
  {
  }
}
