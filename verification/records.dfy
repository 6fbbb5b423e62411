/** The output rows and the record expander of the parallel script
    (pdfpl.py:115-128). A row gathers what the scripts append to their five
    parallel lists: the registration number, the invoice number, the file
    name, the file a batch row was split from, and the OK/NO flag. */
module Records {
  import opened Wrappers
  import opened Text
  import opened VamTokens

  datatype Status = OK | NO

  datatype Row = Row(peb: Option<String>, invoice: String, file: Option<String>,
                     splitFrom: Option<String>, status: Status)

  /** `f"VAM-{num}"`. */
  function InvoiceName(n: nat): String
  {
    "VAM-" + Decimal(n)
  }

  /** One OK row per invoice number of the range, split from `source`. */
  function BatchRows(peb: Option<String>, lo: nat, hi: nat, source: String): (rows: seq<Row>)
    ensures |rows| == if lo <= hi then hi - lo + 1 else 0
    ensures forall j :: 0 <= j < |rows| ==>
      rows[j] == Row(peb, InvoiceName(lo + j), Some(source), Some(source), OK)
    decreases if lo <= hi then hi - lo + 1 else 0
  {
    if lo > hi then []
    else [Row(peb, InvoiceName(lo), Some(source), Some(source), OK)] + BatchRows(peb, lo + 1, hi, source)
  }

  /** The expander: a confirmed batch becomes one row per invoice number;
      anything else becomes one row for the identifier itself, naming the
      file that was read. */
  function Expand(doc: String, read: String, batch: Option<(Range, String)>,
                  peb: Option<String>, found: bool): (rows: seq<Row>)
    ensures batch.Some? && found ==> var rg := batch.value.0;
      && |rows| == (if rg.lo <= rg.hi then rg.hi - rg.lo + 1 else 0)
      && forall j :: 0 <= j < |rows| ==>
           && rows[j].invoice == InvoiceName(rg.lo + j) && rows[j].status == OK && rows[j].peb == peb
           && rows[j].file == Some(batch.value.1) && rows[j].splitFrom == Some(batch.value.1)
    ensures !(batch.Some? && found) ==>
      && |rows| == 1 && rows[0].invoice == doc && rows[0].peb == peb
      && rows[0].file == Some(read) && rows[0].splitFrom.None? && (rows[0].status == OK <==> found)
  {
    if batch.Some? && found then BatchRows(peb, batch.value.0.lo, batch.value.0.hi, batch.value.1)
    else [Row(peb, doc, Some(read), None, if found then OK else NO)]
  }

  /** Reading the number back out of a batch row's invoice name gives the
      position in the range, so the names are distinct and ascending. */
  lemma BatchInvoiceNumbers(peb: Option<String>, lo: nat, hi: nat, source: String)
    ensures var rows := BatchRows(peb, lo, hi, source);
      && (forall j :: 0 <= j < |rows| ==>
            rows[j].invoice[..4] == "VAM-" && AllDigits(rows[j].invoice[4..])
            && DigitsValue(rows[j].invoice[4..]) == lo + j)
      && (forall j, j' :: 0 <= j < j' < |rows| ==> rows[j].invoice != rows[j'].invoice)
  {
    var rows := BatchRows(peb, lo, hi, source);
    forall j | 0 <= j < |rows|
      ensures rows[j].invoice[..4] == "VAM-" && AllDigits(rows[j].invoice[4..])
      ensures DigitsValue(rows[j].invoice[4..]) == lo + j
    {
      assert rows[j].invoice[4..] == Decimal(lo + j);
      DecimalRoundTrip(lo + j);
    }
  }
}
