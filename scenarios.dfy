/** Worked cases of the action on small store lists. */
module Scenarios {
  import opened Wrappers
  import opened Text
  import opened Templates
  import opened Stores
  import opened Responder

  const Columns: seq<string> := ["store number", "region code"]

  const GlPrefix: string := "This bills to: GL code 170.3010."
  const GlSuffix: string := ".000.6340.623020.000.0000"

  lemma GlPrefixHasNoX()
    ensures 'X' !in GlPrefix
  {
  }

  lemma GlSuffixHasNoX()
    ensures 'X' !in GlSuffix
  {
  }

  lemma OneStoreReplyText()
    ensures ResponseTemplates[0].reply == "This bills to: GL code 170.3010.XXXXX.000.6340.623020.000.0000"
  {
  }

  /** The "One store" reply is the GL code with the placeholder in the
      segment of the store's region code. */
  lemma OneStoreReplyShape()
    ensures ResponseTemplates[0].reply == GlPrefix + Placeholder + GlSuffix
  {
    OneStoreReplyText();
    OneStoreReplyPieces();
  }

  lemma OneStoreReplyPieces()
    ensures "This bills to: GL code 170.3010.XXXXX.000.6340.623020.000.0000" == GlPrefix + Placeholder + GlSuffix
  {
  }

  /** The "One store" reply with its placeholder replaced by `code`. */
  lemma OneStoreGlCode(code: string)
    ensures ReplaceAll(ResponseTemplates[0].reply, Placeholder, code) == GlPrefix + code + GlSuffix
  {
    OneStoreReplyShape();
    GlPrefixHasNoX();
    GlSuffixHasNoX();
    ReplaceSingle(GlPrefix, Placeholder, GlSuffix, code);
  }

  /** "One store" with "101" on a list whose store 101 has region code
      `code`: the placeholder becomes that code. */
  lemma OneStoreFound(code: string, other: string)
    ensures Compose(ResponseTemplates[0], "101", Columns, [Row("101", code), Row("102", other)])
         == Ok(Composition(GlPrefix + code + GlSuffix, ["101"], None))
  {
    assert IsToken("101");
    TokenizeSingle("101");
    assert StoreNumberColumn in Columns && RegionCodeColumn in Columns;
    assert IsFirstMatch([Row("101", code), Row("102", other)], "101", 0);
    OneStoreGlCode(code);
  }

  /** "One store" with a store number that is on no row: the not-found
      diagnostic naming the number. */
  lemma OneStoreNotFound(key: string, rows: seq<Row>)
    requires IsToken(key)
    requires forall i :: 0 <= i < |rows| ==> rows[i].storeNumber != key
    ensures Compose(ResponseTemplates[0], key, Columns, rows)
         == Ok(Composition(NotFoundPrefix + key, [key], None))
  {
    TokenizeSingle(key);
    assert StoreNumberColumn in Columns;
  }

  /** Two tokens separated by a comma and a space. */
  lemma TokenizeCommaPair(a: string, b: string)
    requires IsToken(a) && IsToken(b)
    ensures Tokenize(a + ", " + b) == [a, b]
  {
    assert a + ", " + b == a + [','] + (" " + b);
    TokenizeAtSeparator(a, ',', " " + b);
    assert " " + b == [] + [' '] + b;
    TokenizeAtSeparator([], ' ', b);
    TokenizeEmpty();
    TokenizeSingle(a);
    TokenizeSingle(b);
  }

  /** Two tokens separated by a bare comma. */
  lemma TokenizeCommaJoined(a: string, b: string)
    requires IsToken(a) && IsToken(b)
    ensures Tokenize(a + "," + b) == [a, b]
  {
    TokenizeAtSeparator(a, ',', b);
    TokenizeSingle(a);
    TokenizeSingle(b);
  }

  lemma GroupReplyText()
    ensures ResponseTemplates[2].reply
         == "Please allocate evenly across the list of stores with Region Codes attached."
  {
  }

  /** The "Group of Stores" reply in three pieces short enough to be
      inspected character by character. */
  lemma GroupReplyPieces()
    ensures "Please allocate evenly across the list of stores with Region Codes attached."
         == "Please allocate evenly " + "across the list of stores" + " with Region Codes attached."
  {
    GroupReplyOpening();
    GroupReplyHalves();
  }

  lemma GroupReplyOpening()
    ensures "Please allocate evenly across the list of stores"
         == "Please allocate evenly " + "across the list of stores"
  {
  }

  lemma GroupReplyHalves()
    ensures "Please allocate evenly across the list of stores with Region Codes attached."
         == "Please allocate evenly across the list of stores" + " with Region Codes attached."
  {
  }

  lemma GroupReplyPiecesHaveNoX()
    ensures 'X' !in "Please allocate evenly "
    ensures 'X' !in "across the list of stores"
    ensures 'X' !in " with Region Codes attached."
  {
  }

  /** The catalogue's "Group of Stores" entry needs store numbers, asks for
      a spreadsheet and has no placeholder (not even an `X`) in its reply. */
  lemma GroupOfStoresShape()
    ensures var t := ResponseTemplates[2];
      t.option == "Group of Stores" && t.needsStore && t.attachFile && 'X' !in t.reply
  {
    GroupReplyText();
    GroupReplyPieces();
    GroupReplyPiecesHaveNoX();
  }

  /** The input "101, 102" holds the two tokens "101" and "102". */
  lemma GroupTokens()
    ensures Tokenize("101, 102") == ["101", "102"]
  {
    assert IsToken("101") && IsToken("102");
    TokenizeCommaPair("101", "102");
    assert "101" + ", " + "102" == "101, 102";
  }

  /** Both rows of a list holding just stores 101 and 102 are selected. */
  lemma GroupFilter(rows: seq<Row>)
    requires |rows| == 2 && rows[0].storeNumber == "101" && rows[1].storeNumber == "102"
    ensures FilterRows(rows, ["101", "102"]) == rows
  {
    var numbers := ["101", "102"];
    assert Selected(rows[0], numbers) && Selected(rows[1], numbers);
    var first := rows[..1];
    assert first[..0] == [];
    assert FilterRows(first, numbers) == [rows[0]];
    assert FilterRows(rows, numbers) == FilterRows(first, numbers) + [rows[1]];
    assert rows == [rows[0], rows[1]];
  }

  /** "101, 102" on a list holding just those two stores selects both rows,
      and a reply without the placeholder keeps its text. */
  lemma GroupCompose(tpl: Template, rows: seq<Row>)
    requires tpl.needsStore && 'X' !in tpl.reply
    requires |rows| == 2 && rows[0].storeNumber == "101" && rows[1].storeNumber == "102"
    ensures Compose(tpl, "101, 102", Columns, rows) == Ok(Composition(tpl.reply, ["101", "102"], Some(rows)))
  {
    GroupTokens();
    GroupFilter(rows);
    assert StoreNumberColumn in Columns;
    SubstitutionSparesPlainReplies(tpl.reply, MultipleStores);
  }

  /** The spreadsheet and message names derived from `<stem>.pdf`. */
  lemma PdfDerivedNames(stem: string)
    requires '.' !in stem
    ensures SpreadsheetName("filtered_", stem + ".pdf") == "filtered_" + stem + ".xlsx"
    ensures ReplaceAll(stem + ".pdf", ".pdf", "_reply.eml") == stem + "_reply.eml"
  {
    ReplaceSingle(stem, ".pdf", "", ".xlsx");
    ReplaceSingle(stem, ".pdf", "", "_reply.eml");
    assert stem + ".pdf" + "" == stem + ".pdf";
  }

  /** A template shaped like "Group of Stores", given "101, 102" on a list
      holding just those two stores: both rows are attached as
      `filtered_<stem>.xlsx` ahead of the PDF, and the reply is unchanged. */
  lemma GroupOfStores(tpl: Template, code101: string, code102: string, stem: string, pdf: seq<bv8>)
    requires tpl.needsStore && tpl.attachFile && 'X' !in tpl.reply
    requires '.' !in stem
    ensures var rows := [Row("101", code101), Row("102", code102)];
      Respond(tpl, "101, 102", Columns, rows, stem + ".pdf", pdf)
      == Ok(Draft("Response to: " + stem + ".pdf", Recipient, tpl.reply,
                  [Attachment("filtered_" + stem + ".xlsx", SpreadsheetMime, Sheet(Columns, rows)),
                   PdfAttachment(stem + ".pdf", pdf)],
                  stem + "_reply.eml"))
  {
    var rows := [Row("101", code101), Row("102", code102)];
    GroupCompose(tpl, rows);
    GroupAssemble(tpl, rows, stem, pdf);
  }

  /** The catalogue's own "Group of Stores" template with "101, 102" on a
      list of just those two stores: its reply unchanged, the two rows as
      `filtered_<stem>.xlsx`, then the PDF. */
  lemma GroupOfStoresFromCatalogue(code101: string, code102: string, stem: string, pdf: seq<bv8>)
    requires '.' !in stem
    ensures var rows := [Row("101", code101), Row("102", code102)];
      Respond(ResponseTemplates[2], "101, 102", Columns, rows, stem + ".pdf", pdf)
      == Ok(Draft("Response to: " + stem + ".pdf", Recipient, ResponseTemplates[2].reply,
                  [Attachment("filtered_" + stem + ".xlsx", SpreadsheetMime, Sheet(Columns, rows)),
                   PdfAttachment(stem + ".pdf", pdf)],
                  stem + "_reply.eml"))
  {
    GroupOfStoresShape();
    GroupOfStores(ResponseTemplates[2], code101, code102, stem, pdf);
  }

  /** The draft assembled on that path: the selected rows as
      `filtered_<stem>.xlsx`, then the PDF. */
  lemma GroupAssemble(tpl: Template, rows: seq<Row>, stem: string, pdf: seq<bv8>)
    requires tpl.needsStore && tpl.attachFile && rows != []
    requires '.' !in stem
    ensures Assemble(tpl, Composition(tpl.reply, ["101", "102"], Some(rows)), Columns, rows, stem + ".pdf", pdf)
      == Ok(Draft("Response to: " + stem + ".pdf", Recipient, tpl.reply,
                  [Attachment("filtered_" + stem + ".xlsx", SpreadsheetMime, Sheet(Columns, rows)),
                   PdfAttachment(stem + ".pdf", pdf)],
                  stem + "_reply.eml"))
  {
    PdfDerivedNames(stem);
    assert "filtered_" + (stem + ".xlsx") == "filtered_" + stem + ".xlsx";
    assert SubjectPrefix + (stem + ".pdf") == "Response to: " + stem + ".pdf";
    var sheet := Attachment("filtered_" + stem + ".xlsx", SpreadsheetMime, Sheet(Columns, rows));
    assert [sheet] + [PdfAttachment(stem + ".pdf", pdf)] == [sheet, PdfAttachment(stem + ".pdf", pdf)];
  }

  lemma ScrubsNeedsStore()
    ensures ResponseTemplates[7].option == "Scrubs" && ResponseTemplates[7].needsStore
  {
  }

  /** "Scrubs" with a store number on a list without a store-number column:
      the missing-column diagnostic, not a fault. */
  lemma ScrubsWithoutStoreColumn(key: string, rows: seq<Row>)
    requires IsToken(key)
    ensures Compose(ResponseTemplates[7], key, ["region code"], rows)
         == Ok(Composition(MissingColumnMessage, [key], None))
  {
    ScrubsNeedsStore();
    TokenizeSingle(key);
    assert StoreNumberColumn !in ["region code"];
  }
}
