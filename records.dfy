/** The records the annotation engine works on, and the interface of the GPD
    library it calls into (parsing, range overlap, exon overlap, lengths and
    range strings). The library's internals are not part of this model: its
    operations are the fields of a `Library` value, so every result of the
    model holds for any library with these signatures. */
module Records {

  datatype Option<+T> = None | Some(value: T)

  datatype Result<+T, +E> = Success(value: T) | Failure(error: E)

  /** A genomic interval on one chromosome, as returned by `get_range()`. */
  datatype Range = Range(chr: string, start: int, end: int)

  /** One parsed GPD line (a read or a reference transcript). */
  datatype Gpd = Gpd(geneName: string, transcriptName: string, range: Range, exons: seq<Range>)

  /** `get_exon_count()` */
  function ExonCount(g: Gpd): nat
  {
    |g.exons|
  }

  /** A value tagged with the 1-based number of the input line it came from:
      a buffered read `[line, z]`, or a reference transcript carrying its
      line number as payload. */
  datatype Numbered<T> = Numbered(item: T, z: nat)

  type Transcript = Numbered<Gpd>

  /** The keyword arguments handed to `exon_overlap`. */
  datatype Thresholds =
    | SingleExon(minOver: int, frac: real)
    | MultiExon(minOver: int, endFrac: real, midFrac: real, consec: bool)

  /** `single_minover=100, single_frac=0.5` */
  const SingleParams: Thresholds := SingleExon(100, 0.5)

  /** `multi_minover=10, multi_endfrac=0, multi_midfrac=0.8, multi_consec=False` */
  const MultiParams: Thresholds := MultiExon(10, 0.0, 0.8, false)

  /** What `exon_overlap` reports; `matched` is the object's truth value. */
  datatype ExonOverlap = ExonOverlap(
    matched: bool,
    fullOverlap: bool,
    subset: bool,
    consecutive: int,
    matchCount: int)

  type Positive = n: int | n > 0 witness 1

  /** The GPD library as seen by the engine.
      - parse: `GPD(line)`
      - overlaps(x, v): `x.overlaps(v)` on two ranges
      - exonOverlap(read, tx, p): `read.exon_overlap(tx, **p)`
      - overlapSize(read, tx): `read.overlap_size(tx)`
      - length: `get_length()`, positive (the sort key divides by it)
      - rangeString: `get_range_string()` */
  datatype Library = Library(
    parse: string -> Gpd,
    overlaps: (Range, Range) -> bool,
    exonOverlap: (Gpd, Gpd, Thresholds) -> ExonOverlap,
    overlapSize: (Gpd, Gpd) -> int,
    length: Gpd -> Positive,
    rangeString: Range -> string)
}
