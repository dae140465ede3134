/** Sheets as they are filled in (common/api_doc_convert.py): the type cell of a row says STRUCT or ARRAY in
  * letters of any case, or is the type of a leaf. */
module ApiDocSheet {
  import opened Options
  import opened PyText
  import opened PyBlanks
  import opened ApiDocMachine
  import opened ApiDocListing

  /** The cell is a word of capital letters, but for the case of its letters. */
  predicate Says(cell: string, word: string) {
    |cell| == |word| && forall i :: 0 <= i < |cell| ==> cell[i] == word[i] || cell[i] as int == word[i] as int + 32
  }

  /** A row of the sheet for a row of a listing; a leaf's type says neither word. */
  predicate Spells(raw: RawRow, row: Row) {
    && raw.name == row.name
    && match row
       case StructRow(_) => Says(raw.fieldType, "STRUCT")
       case ArrayRow(_) => Says(raw.fieldType, "ARRAY")
       case LeafRow(_, fieldType, length) =>
         && raw.fieldType == fieldType && raw.length == length
         && !Says(fieldType, "STRUCT") && !Says(fieldType, "ARRAY")
  }

  predicate Spelling(raws: seq<RawRow>, rows: seq<Row>) {
    |raws| == |rows| && forall i :: 0 <= i < |raws| ==> Spells(raws[i], rows[i])
  }

  function ClassifyAll(raw: seq<RawRow>): (rows: seq<Row>)
    ensures |rows| == |raw|
  {
    seq(|raw|, i requires 0 <= i < |raw| => Classify(raw[i]))
  }

  predicate Capitals(word: string) {
    forall i :: 0 <= i < |word| ==> 'A' <= word[i] <= 'Z'
  }

  lemma {:induction false} UpperIff(cell: string, word: string)
    requires Capitals(word)
    ensures Upper(cell) == word <==> Says(cell, word)
  {
    UpperAt(cell);
  }

  /** A row is read as the row it spells, and as no other. */
  lemma {:induction false} ClassifyIff(raw: RawRow, row: Row)
    ensures Classify(raw) == row <==> Spells(raw, row)
  {
    UpperIff(raw.fieldType, "STRUCT");
    UpperIff(raw.fieldType, "ARRAY");
  }

  lemma {:induction false} ClassifyAllIff(raws: seq<RawRow>, rows: seq<Row>)
    ensures ClassifyAll(raws) == rows <==> Spelling(raws, rows)
  {
    forall i | 0 <= i < |raws| && i < |rows| ensures ClassifyAll(raws)[i] == rows[i] <==> Spells(raws[i], rows[i]) {
      ClassifyIff(raws[i], rows[i]);
    }
  }

  /** A sheet that spells the listing of a tree parses to the tree exactly when the tree reads back. */
  lemma {:induction false} SheetIff(raws: seq<RawRow>, f: Field)
    requires Spelling(raws, Rows(f))
    ensures Parse(ClassifyAll(raws)) == Ok(Some(f)) <==> ReadsBack(f)
  {
    ClassifyAllIff(raws, Rows(f));
    ListThenParseIff(f);
  }
}
