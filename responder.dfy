/** The "Generate Email Response" action: compose the reply from the chosen
    template, the clerk's store numbers and the store list, then assemble the
    outgoing message with its attachments. */
module Responder {
  import opened Wrappers
  import opened Text
  import opened Templates
  import opened Stores

  const Placeholder: string := "XXXXX"
  const MultipleStores: string := "multiple stores"
  const NotFoundPrefix: string := "No matching store found for store number: "
  const MissingColumnMessage: string := "The store list does not contain a 'store number' column."
  const SubjectPrefix: string := "Response to: "
  const Recipient: string := "DSao@techstyle.com"
  const SpreadsheetMime: string := "application/vnd.openxmlformats-officedocument.spreadsheetml.sheet"
  const PdfMime: string := "application/pdf"

  /** The two points where the handler raises instead of answering. */
  datatype Fault =
    | MissingRegionCode   // `row.iloc[0]["region code"]` on a list without that column
    | FilteredUndefined   // `filtered` read although it was never bound

  /** What the composition leaves behind: the reply text, the tokens
      (`numbers`; empty when the template needs no store), and the filtered
      rows (`filtered`), which are bound only on the several-token path with a
      store-number column. */
  datatype Composition = Composition(reply: string, numbers: seq<string>, filtered: Option<seq<Row>>)

  datatype Payload = Sheet(columns: seq<string>, rows: seq<Row>) | Document(bytes: seq<bv8>)

  datatype Attachment = Attachment(filename: string, mimeType: string, payload: Payload)

  /** The message before serialisation, and the name it is offered under. */
  datatype Draft = Draft(subject: string, recipient: string, body: string,
                         attachments: seq<Attachment>, fileName: string)

  // ---------------------------------------------------------------------
  // Reply composition

  /** The reply the handler composes, stated case by case: a template that
      needs no store, or an input without tokens, keeps its text; one token
      looks up the first row with that store number; several tokens filter
      the rows; a list without a store-number column gets a diagnostic. */
  function Compose(tpl: Template, storeInput: string, columns: seq<string>, rows: seq<Row>)
    : (res: Result<Composition, Fault>)
    ensures !tpl.needsStore ==> res == Ok(Composition(tpl.reply, [], None))
    ensures tpl.needsStore && Tokenize(storeInput) == [] ==> res == Ok(Composition(tpl.reply, [], None))
    ensures tpl.needsStore && |Tokenize(storeInput)| >= 1 && StoreNumberColumn !in columns ==>
              res == Ok(Composition(MissingColumnMessage, Tokenize(storeInput), None))
    ensures tpl.needsStore && |Tokenize(storeInput)| == 1 && StoreNumberColumn in columns ==>
              var key := Tokenize(storeInput)[0];
              && (!HasStore(rows, key) ==> res == Ok(Composition(NotFoundPrefix + key, [key], None)))
              && (HasStore(rows, key) && RegionCodeColumn !in columns ==> res == Err(MissingRegionCode))
              && (forall i :: IsFirstMatch(rows, key, i) && RegionCodeColumn in columns ==>
                    res == Ok(Composition(ReplaceAll(tpl.reply, Placeholder, rows[i].regionCode), [key], None)))
    ensures tpl.needsStore && |Tokenize(storeInput)| > 1 && StoreNumberColumn in columns ==>
              var tokens := Tokenize(storeInput);
              res == Ok(Composition(ReplaceAll(tpl.reply, Placeholder, MultipleStores), tokens,
                                    Some(FilterRows(rows, tokens))))
  {
    if !tpl.needsStore then Ok(Composition(tpl.reply, [], None))
    else
      var numbers := Tokenize(storeInput);
      if numbers == [] then Ok(Composition(tpl.reply, [], None))
      else if StoreNumberColumn !in columns then Ok(Composition(MissingColumnMessage, numbers, None))
      else if |numbers| == 1 then
        assert numbers == [numbers[0]];
        match FirstMatch(rows, numbers[0])
        case None => Ok(Composition(NotFoundPrefix + numbers[0], numbers, None))
        case Some(i) =>
          if RegionCodeColumn !in columns then Err(MissingRegionCode)
          else
            assert forall j :: IsFirstMatch(rows, numbers[0], j) ==> j == i;
            Ok(Composition(ReplaceAll(tpl.reply, Placeholder, rows[i].regionCode), numbers, None))
      else
        Ok(Composition(ReplaceAll(tpl.reply, Placeholder, MultipleStores), numbers,
                       Some(FilterRows(rows, numbers))))
  }

  /** The handler's composition, which starts from the template text and
      reassigns `reply` branch by branch. */
  method ComposeReply(tpl: Template, storeInput: string, columns: seq<string>, rows: seq<Row>)
    returns (res: Result<Composition, Fault>)
    ensures res == Compose(tpl, storeInput, columns, rows)
  {
    var reply := tpl.reply;
    var numbers: seq<string> := [];
    var filtered: Option<seq<Row>> := None;
    if tpl.needsStore {
      numbers := Tokenize(storeInput);
      if |numbers| == 1 {
        if StoreNumberColumn in columns {
          var hit := FirstMatch(rows, numbers[0]);
          if hit.Some? {
            if RegionCodeColumn !in columns {
              return Err(MissingRegionCode);
            }
            reply := ReplaceAll(reply, Placeholder, rows[hit.value].regionCode);
          } else {
            reply := NotFoundPrefix + numbers[0];
          }
        } else {
          reply := MissingColumnMessage;
        }
      } else if |numbers| > 1 {
        if StoreNumberColumn in columns {
          filtered := Some(FilterRows(rows, numbers));
          reply := ReplaceAll(reply, Placeholder, MultipleStores);
        } else {
          reply := MissingColumnMessage;
        }
      }
    }
    res := Ok(Composition(reply, numbers, filtered));
  }

  /** On the several-token path every placeholder is gone from the reply. */
  lemma MultipleStoresLeavesNoPlaceholder(reply: string)
    ensures !Occurs(ReplaceAll(reply, Placeholder, MultipleStores), Placeholder)
  {
    assert forall c :: c in MultipleStores ==> c !in Placeholder;
    ReplaceEliminates(reply, Placeholder, MultipleStores);
  }

  /** A reply without the placeholder is left as it is by the substitution. */
  lemma SubstitutionSparesPlainReplies(reply: string, code: string)
    requires 'X' !in reply
    ensures ReplaceAll(reply, Placeholder, code) == reply
  {
    AbsentWhenFirstCharAbsent(reply, Placeholder);
    ReplaceAbsent(reply, Placeholder, code);
  }

  // ---------------------------------------------------------------------
  // Draft assembly

  /** `prefix + name.replace(".pdf", ".xlsx")`: the name starts with the
      prefix, and a name without ".pdf" is kept as it is after it. */
  function SpreadsheetName(prefix: string, pdfName: string): (n: string)
    ensures |prefix| <= |n| && n[..|prefix|] == prefix
    ensures !Occurs(pdfName, ".pdf") ==> n == prefix + pdfName
  {
    var stem := ReplaceAll(pdfName, ".pdf", ".xlsx");
    assert !Occurs(pdfName, ".pdf") ==> stem == pdfName by {
      if !Occurs(pdfName, ".pdf") {
        ReplaceAbsent(pdfName, ".pdf", ".xlsx");
      }
    }
    prefix + stem
  }

  function PdfAttachment(pdfName: string, pdf: seq<bv8>): Attachment {
    Attachment(pdfName, PdfMime, Document(pdf))
  }

  /** The message the handler assembles from a composition: fixed recipient,
      subject naming the PDF, the reply as body, an optional spreadsheet and
      the PDF always last. It fails only where `filtered` is read unbound. */
  function Assemble(tpl: Template, comp: Composition, columns: seq<string>, rows: seq<Row>,
                    pdfName: string, pdf: seq<bv8>): (res: Result<Draft, Fault>)
    ensures res.Err? <==> tpl.attachFile && tpl.needsStore && |comp.numbers| > 1 && comp.filtered.None?
    ensures res.Err? ==> res.error == FilteredUndefined
    ensures res.Ok? ==> && res.value.subject == SubjectPrefix + pdfName
                        && res.value.recipient == Recipient
                        && res.value.body == comp.reply
                        && res.value.fileName == ReplaceAll(pdfName, ".pdf", "_reply.eml")
    ensures res.Ok? ==> var atts := res.value.attachments;
              && 1 <= |atts| <= 2
              && atts[|atts| - 1] == PdfAttachment(pdfName, pdf)
              && (|atts| == 2 <==>
                    tpl.attachFile
                    && ((tpl.needsStore && |comp.numbers| > 1 && comp.filtered.Some? && comp.filtered.value != [])
                        || !tpl.needsStore))
    ensures res.Ok? && |res.value.attachments| == 2 && tpl.needsStore ==>
              comp.filtered.Some? &&
              res.value.attachments[0] ==
                Attachment(SpreadsheetName("filtered_", pdfName), SpreadsheetMime, Sheet(columns, comp.filtered.value))
    ensures res.Ok? && |res.value.attachments| == 2 && !tpl.needsStore ==>
              res.value.attachments[0] ==
                Attachment(SpreadsheetName("allstores_", pdfName), SpreadsheetMime, Sheet(columns, rows))
  {
    var sheet: seq<Attachment> :=
      if !tpl.attachFile then []
      else if tpl.needsStore && |comp.numbers| > 1 then
        if comp.filtered.None? then []
        else if comp.filtered.value != [] then
          [Attachment(SpreadsheetName("filtered_", pdfName), SpreadsheetMime, Sheet(columns, comp.filtered.value))]
        else []
      else if !tpl.needsStore then
        [Attachment(SpreadsheetName("allstores_", pdfName), SpreadsheetMime, Sheet(columns, rows))]
      else [];
    if tpl.attachFile && tpl.needsStore && |comp.numbers| > 1 && comp.filtered.None? then
      Err(FilteredUndefined)
    else
      Ok(Draft(SubjectPrefix + pdfName, Recipient, comp.reply,
               sheet + [PdfAttachment(pdfName, pdf)], ReplaceAll(pdfName, ".pdf", "_reply.eml")))
  }

  /** The handler's assembly, which adds the attachments one by one. */
  method BuildDraft(tpl: Template, comp: Composition, columns: seq<string>, rows: seq<Row>,
                    pdfName: string, pdf: seq<bv8>) returns (res: Result<Draft, Fault>)
    ensures res == Assemble(tpl, comp, columns, rows, pdfName, pdf)
  {
    var subject := SubjectPrefix + pdfName;
    var attachments: seq<Attachment> := [];
    if tpl.attachFile {
      if tpl.needsStore && |comp.numbers| > 1 {
        if comp.filtered.None? {
          return Err(FilteredUndefined);
        }
        if comp.filtered.value != [] {
          var name := SpreadsheetName("filtered_", pdfName);
          attachments := attachments + [Attachment(name, SpreadsheetMime, Sheet(columns, comp.filtered.value))];
        }
      } else if !tpl.needsStore {
        var name := SpreadsheetName("allstores_", pdfName);
        attachments := attachments + [Attachment(name, SpreadsheetMime, Sheet(columns, rows))];
      }
    }
    assert 0 < |attachments| ==> attachments == [attachments[0]];
    attachments := attachments + [PdfAttachment(pdfName, pdf)];
    var fileName := ReplaceAll(pdfName, ".pdf", "_reply.eml");
    res := Ok(Draft(subject, Recipient, comp.reply, attachments, fileName));
  }

  // ---------------------------------------------------------------------
  // The whole action

  /** Composition followed by assembly, on the already normalised headers. */
  function Respond(tpl: Template, storeInput: string, columns: seq<string>, rows: seq<Row>,
                   pdfName: string, pdf: seq<bv8>): (res: Result<Draft, Fault>)
    ensures Compose(tpl, storeInput, columns, rows).Err? ==>
              res == Err(Compose(tpl, storeInput, columns, rows).error)
    ensures res.Ok? ==> Compose(tpl, storeInput, columns, rows).Ok?
                        && res.value.body == Compose(tpl, storeInput, columns, rows).value.reply
                        && res.value.subject == SubjectPrefix + pdfName
  {
    match Compose(tpl, storeInput, columns, rows)
    case Err(e) => Err(e)
    case Ok(comp) => Assemble(tpl, comp, columns, rows, pdfName, pdf)
  }

  /** The button handler: pick the template by its label, normalise the
      headers of the kept store list in place, compose, assemble. */
  method GenerateEmailResponse(store: StoreList, choice: string, storeInput: string,
                               pdfName: string, pdf: seq<bv8>) returns (res: Result<Draft, Fault>)
    requires choice in OptionLabels()
    modifies store
    ensures store.columns == NormalizeColumns(old(store.columns)) && store.rows == old(store.rows)
    ensures res == Respond(SelectTemplate(choice).value, storeInput, store.columns, store.rows, pdfName, pdf)
  {
    var tpl := SelectTemplate(choice).value;
    store.NormalizeHeaders();
    var comp := ComposeReply(tpl, storeInput, store.columns, store.rows);
    if comp.Err? {
      return Err(comp.error);
    }
    res := BuildDraft(tpl, comp.value, store.columns, store.rows, pdfName, pdf);
  }

  /** The action fails exactly in the two places the handler raises: a
      single token that hits a row of a list without a region-code column,
      or a spreadsheet-attaching store template given several tokens and a
      list without a store-number column. */
  lemma RespondFailsOnlyWhereHandlerRaises(tpl: Template, storeInput: string, columns: seq<string>,
                                           rows: seq<Row>, pdfName: string, pdf: seq<bv8>)
    ensures var tokens := Tokenize(storeInput);
      Respond(tpl, storeInput, columns, rows, pdfName, pdf).Err? <==>
        || (tpl.needsStore && StoreNumberColumn in columns
            && |tokens| == 1 && HasStore(rows, tokens[0]) && RegionCodeColumn !in columns)
        || (tpl.needsStore && tpl.attachFile && |tokens| > 1 && StoreNumberColumn !in columns)
  {
  }

  /** A spreadsheet goes out exactly when the template asks for one and
      either it needs no store (the full list, `allstores_…`) or several
      tokens select at least one row (those rows, `filtered_…`); the PDF is
      always the last attachment. */
  lemma SpreadsheetAttachedIff(tpl: Template, storeInput: string, columns: seq<string>,
                               rows: seq<Row>, pdfName: string, pdf: seq<bv8>)
    requires Respond(tpl, storeInput, columns, rows, pdfName, pdf).Ok?
    ensures var tokens := Tokenize(storeInput);
      var atts := Respond(tpl, storeInput, columns, rows, pdfName, pdf).value.attachments;
      && atts[|atts| - 1] == PdfAttachment(pdfName, pdf)
      && (|atts| == 2 <==>
            (tpl.attachFile &&
             (!tpl.needsStore || (|tokens| > 1 && exists i :: 0 <= i < |rows| && Selected(rows[i], tokens)))))
      && (|atts| == 2 && tpl.needsStore ==>
            atts[0] == Attachment(SpreadsheetName("filtered_", pdfName), SpreadsheetMime,
                                  Sheet(columns, FilterRows(rows, tokens))))
      && (|atts| == 2 && !tpl.needsStore ==>
            atts[0] == Attachment(SpreadsheetName("allstores_", pdfName), SpreadsheetMime, Sheet(columns, rows)))
  {
  }
}
