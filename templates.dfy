/** The fixed catalogue of billing-response templates and the lookup of the
    template the clerk picked from the select box. */
module Templates {
  import opened Wrappers

  /** One response template: its display label, whether it needs store
      numbers, whether it asks for a spreadsheet attachment, and its reply,
      which may hold the placeholder `XXXXX`. */
  datatype Template = Template(option: string, needsStore: bool, attachFile: bool, reply: string)

  /** `RESPONSE_TEMPLATES`, in catalogue order. */
  const ResponseTemplates: seq<Template> := [
    Template("One store", true, false,
             "This bills to: GL code 170.3010.XXXXX.000.6340.623020.000.0000"),
    Template("All stores", false, true,
             "Please allocate evenly across all stores. List of stores with Region Codes attached."),
    Template("Group of Stores", true, true,
             "Please allocate evenly across the list of stores with Region Codes attached."),
    Template("Lab Store", false, false,
             "This invoice is for the Lab Store. Please bill to: GL code 170.3010.10125.000.6340.623020.000.0000"),
    Template("Retail Activations - Dallas", false, false,
             "This bills to: GL code: 170.3010.15910.6340.632020"),
    Template("Retail Activations - Trailer", false, true,
             "This bills to: GL code: 170.3010.15916.6340.632020"),
    Template("Retail Activations - General", false, false,
             "This bills to: GL code:"),
    Template("Scrubs", true, false,
             "This bills to: GL code: 180.3015.15917.000.6340.623020"),
    Template("Interior Building (Crow\U{2019}s Nest)", false, false,
             "This bills to: GL code: 180.3015.10001.000.6340.623030.000.0000"),
    Template("NSO", false, false,
             "This is a NSO. This bills to: GL code: 170.3010.10125.000.6340.623050.000.0000")
  ]

  /** The labels offered in the select box, in catalogue order. */
  function OptionLabels(): (labels: seq<string>)
    ensures |labels| == |ResponseTemplates|
    ensures forall i :: 0 <= i < |labels| ==> labels[i] == ResponseTemplates[i].option
  {
    seq(|ResponseTemplates|, i requires 0 <= i < |ResponseTemplates| => ResponseTemplates[i].option)
  }

  /** The first template of `ts` whose label is `choice`, if any. */
  function FirstWithOption(ts: seq<Template>, choice: string): (r: Option<nat>)
    ensures r.Some? ==> r.value < |ts| && ts[r.value].option == choice
                        && forall j :: 0 <= j < r.value ==> ts[j].option != choice
    ensures r.None? ==> forall j :: 0 <= j < |ts| ==> ts[j].option != choice
  {
    if ts == [] then None
    else
      match FirstWithOption(ts[..|ts| - 1], choice)
      case Some(i) => Some(i)
      case None => if ts[|ts| - 1].option == choice then Some(|ts| - 1) else None
  }

  /** The template selection: the first catalogue entry carrying the chosen
      label, or nothing when no entry does. */
  function SelectTemplate(choice: string): (t: Option<Template>)
    ensures t.Some? ==> t.value in ResponseTemplates && t.value.option == choice
    ensures t.None? <==> choice !in OptionLabels()
  {
    match FirstWithOption(ResponseTemplates, choice)
    case Some(i) =>
      assert OptionLabels()[i] == choice;
      Some(ResponseTemplates[i])
    case None =>
      assert forall j :: 0 <= j < |OptionLabels()| ==> OptionLabels()[j] != choice;
      None
  }

  /** No two catalogue entries share a label. */
  lemma OptionsDistinct()
    ensures forall i, j :: 0 <= i < j < |ResponseTemplates| ==>
              ResponseTemplates[i].option != ResponseTemplates[j].option
  {
  }

  /** Every label offered selects exactly the catalogue entry that carries
      it, so "first match" is "the match". */
  lemma SelectionIsUnique(t: Template)
    requires t in ResponseTemplates
    ensures SelectTemplate(t.option) == Some(t)
  {
    var i :| 0 <= i < |ResponseTemplates| && ResponseTemplates[i] == t;
    var j := FirstWithOption(ResponseTemplates, t.option).value;
    assert ResponseTemplates[j].option == ResponseTemplates[i].option;
    OptionsDistinct();
    assert j == i;
  }

  /** The store-needing templates are "One store", "Group of Stores" and
      "Scrubs"; the spreadsheet-attaching ones are "All stores",
      "Group of Stores" and "Retail Activations - Trailer". */
  lemma CatalogueFlags()
    ensures forall i :: 0 <= i < |ResponseTemplates| ==>
              (ResponseTemplates[i].needsStore <==>
                 ResponseTemplates[i].option in ["One store", "Group of Stores", "Scrubs"])
    ensures forall i :: 0 <= i < |ResponseTemplates| ==>
              (ResponseTemplates[i].attachFile <==>
                 ResponseTemplates[i].option in ["All stores", "Group of Stores", "Retail Activations - Trailer"])
  {
  }

  /** "Group of Stores" is the only template that both needs store numbers
      and asks for a spreadsheet. */
  lemma OnlyGroupNeedsStoreAndAttaches(t: Template)
    requires t in ResponseTemplates && t.needsStore && t.attachFile
    ensures t.option == "Group of Stores"
  {
  }
}
