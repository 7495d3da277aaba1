/** Accession-number generation (backend/src/modules/library/library.utils.js).

    Numbering continues from the previous accession number of the category:
    its last '-'-separated field is read with `parseInt` and incremented,
    or numbering starts at 1 when there is none. Each of the `count`
    identifiers carries the number `start + i`, spelled in decimal and
    left-padded with '0' to at least six characters, in an accession number
    `ACC-<year>-<category>-<suffix>` and a book number
    `LIB-<category>-<suffix>` sharing that suffix.

    The previous accession number and the current year are parameters: the
    source reads them from the database and the clock. */
module Accession {
  import opened Results
  import opened Text

  datatype Identifier = Identifier(accessionNumber: string, bookNumber: string)

  const SuffixWidth: nat := 6

  /** `start`: 1, or `parseInt(last field of the previous number) + 1`.
      The last field contains no '-', so the start is NaN or at least 1. */
  function StartNumber(last: Option<string>): (n: JsNumber)
    ensures n.NaN? || n.value >= 1
    ensures !Truthy(last) ==> n == Int(1)
  {
    if Truthy(last) then
      var field := LastField(last.value, '-');
      ParseIntWithoutMinus(field);
      Add(ParseInt(field), Int(1))
    else Int(1)
  }

  /** `String(n).padStart(6, "0")` */
  function Suffix(n: JsNumber): string {
    PadStart(NumberToString(n), SuffixWidth, '0')
  }

  function AccessionPrefix(year: int, category: string): string {
    "ACC-" + IntToString(year) + "-" + category
  }

  function BookPrefix(category: string): string {
    "LIB-" + category
  }

  /** The identifier pair for number `n`. */
  function IdentifierFor(year: int, category: string, n: JsNumber): Identifier {
    Identifier(AccessionPrefix(year, category) + "-" + Suffix(n),
               BookPrefix(category) + "-" + Suffix(n))
  }

  /** `generateAccessionNumbers(count, category)`: `Array.from({ length: count }, ...)`,
      so a count of zero or less yields no identifier. */
  function GenerateAccessionNumbers(count: int, category: string, year: int, last: Option<string>)
    : (ids: seq<Identifier>)
    ensures |ids| == if count <= 0 then 0 else count
    ensures forall i | 0 <= i < |ids| ::
      && AccessionPrefix(year, category) + "-" <= ids[i].accessionNumber
      && BookPrefix(category) + "-" <= ids[i].bookNumber
      && |LastField(ids[i].bookNumber, '-')| >= SuffixWidth
  {
    var start := StartNumber(last);
    var n := if count <= 0 then 0 else count;
    var ids := seq(n, i requires 0 <= i < n => IdentifierFor(year, category, Add(start, Int(i))));
    assert forall i | 0 <= i < n :: |LastField(ids[i].bookNumber, '-')| >= SuffixWidth by {
      forall i | 0 <= i < n
        ensures |LastField(ids[i].bookNumber, '-')| >= SuffixWidth
      {
        SuffixFieldOfNumber(BookPrefix(category), Add(start, Int(i)));
      }
    }
    ids
  }

  /** The i-th identifier is the pair for `start + i`. */
  lemma GeneratedAt(count: int, category: string, year: int, last: Option<string>, i: nat)
    requires i < |GenerateAccessionNumbers(count, category, year, last)|
    ensures GenerateAccessionNumbers(count, category, year, last)[i]
         == IdentifierFor(year, category, Add(StartNumber(last), Int(i)))
  {
  }

  /** The spelled-out suffix of a non-negative number holds no '-' and reads
      back as that number. */
  lemma SuffixReadsBack(n: nat)
    ensures '-' !in Suffix(Int(n))
    ensures ParseInt(Suffix(Int(n))) == Int(n)
    ensures |Suffix(Int(n))| >= SuffixWidth
  {
    PaddedDecimal(n, SuffixWidth);
    ParseIntOfPadded(n, SuffixWidth);
    var s := Suffix(Int(n));
    assert forall i | 0 <= i < |s| :: IsDigit(s[i]);
  }

  /** The last field of `prefix-suffix` is the suffix, for any number the
      generator can produce. */
  lemma SuffixFieldOfNumber(prefix: string, n: JsNumber)
    requires n.NaN? || n.value >= 0
    ensures LastField(prefix + "-" + Suffix(n), '-') == Suffix(n)
    ensures |Suffix(n)| >= SuffixWidth
  {
    if n.Int? {
      SuffixReadsBack(n.value);
    } else {
      assert Suffix(n) == "000NaN";
    }
    LastFieldAfterSeparator(prefix, Suffix(n), '-');
  }

  /** The last field of both numbers of an identifier is the suffix, which
      reads back as the identifier's number. */
  lemma IdentifierReadsBack(year: int, category: string, n: nat)
    ensures var id := IdentifierFor(year, category, Int(n));
      && id.accessionNumber != ""
      && ParseInt(LastField(id.accessionNumber, '-')) == Int(n)
      && LastField(id.bookNumber, '-') == LastField(id.accessionNumber, '-')
  {
    SuffixReadsBack(n);
    SuffixFieldOfNumber(AccessionPrefix(year, category), Int(n));
    SuffixFieldOfNumber(BookPrefix(category), Int(n));
  }

  /** Round trip: reading the last field of the i-th accession number gives
      `start + i`, and the book number ends in the same field. */
  lemma GeneratedNumberReadsBack(count: int, category: string, year: int, last: Option<string>, i: nat)
    requires StartNumber(last).Int?
    requires i < |GenerateAccessionNumbers(count, category, year, last)|
    ensures var id := GenerateAccessionNumbers(count, category, year, last)[i];
      && id.accessionNumber != ""
      && ParseInt(LastField(id.accessionNumber, '-')) == Int(StartNumber(last).value + i)
      && LastField(id.bookNumber, '-') == LastField(id.accessionNumber, '-')
  {
    var n := StartNumber(last).value + i;
    GeneratedAt(count, category, year, last, i);
    assert Add(StartNumber(last), Int(i)) == Int(n);
    IdentifierReadsBack(year, category, n);
  }

  /** The generated numbers are consecutive, so the identifiers of one call
      are pairwise distinct. */
  lemma GeneratedIdentifiersDistinct(count: int, category: string, year: int, last: Option<string>, i: nat, j: nat)
    requires StartNumber(last).Int?
    requires i < j < |GenerateAccessionNumbers(count, category, year, last)|
    ensures var ids := GenerateAccessionNumbers(count, category, year, last);
      ids[i].accessionNumber != ids[j].accessionNumber && ids[i].bookNumber != ids[j].bookNumber
  {
    GeneratedNumberReadsBack(count, category, year, last, i);
    GeneratedNumberReadsBack(count, category, year, last, j);
  }

  /** A previous number whose last field reads as `n` starts the numbering at `n + 1`. */
  lemma ContinueFrom(acc: string, n: int)
    requires acc != "" && ParseInt(LastField(acc, '-')) == Int(n)
    ensures StartNumber(Some(acc)) == Int(n + 1)
  {
  }

  /** Reading the i-th accession number back as the previous number starts
      the numbering at `start + i + 1`. */
  lemma GeneratedStart(count: int, category: string, year: int, last: Option<string>, i: nat)
    requires StartNumber(last).Int?
    requires i < |GenerateAccessionNumbers(count, category, year, last)|
    ensures StartNumber(Some(GenerateAccessionNumbers(count, category, year, last)[i].accessionNumber))
         == Int(StartNumber(last).value + i + 1)
  {
    var acc := GenerateAccessionNumbers(count, category, year, last)[i].accessionNumber;
    GeneratedNumberReadsBack(count, category, year, last, i);
    ContinueFrom(acc, StartNumber(last).value + i);
  }

  /** Feeding the last generated accession number back in continues the
      numbering at `start + count`. */
  lemma GenerationContinues(count: int, category: string, year: int, last: Option<string>)
    requires StartNumber(last).Int? && count > 0
    ensures var ids := GenerateAccessionNumbers(count, category, year, last);
      StartNumber(Some(ids[count - 1].accessionNumber)) == Int(StartNumber(last).value + count)
  {
    GeneratedStart(count, category, year, last, count - 1);
  }

  /** `String(NaN).padStart(6, "0")` */
  lemma SuffixOfNaN()
    ensures Suffix(NaN) == "000NaN"
  {
    assert PadStart("NaN", SuffixWidth, '0') == Repeat('0', 3) + "NaN";
    assert Repeat('0', 3) == "000";
  }

  /** As written, a previous number whose last field does not parse makes
      every identifier of the call the same `...-000NaN`. */
  lemma UnparsableLastNumberRepeats(count: int, category: string, year: int, last: Option<string>, i: nat)
    requires StartNumber(last).NaN?
    requires i < |GenerateAccessionNumbers(count, category, year, last)|
    ensures GenerateAccessionNumbers(count, category, year, last)[i].accessionNumber
         == AccessionPrefix(year, category) + "-000NaN"
  {
    GeneratedAt(count, category, year, last, i);
    assert Add(StartNumber(last), Int(i)) == NaN;
    SuffixOfNaN();
  }
}
