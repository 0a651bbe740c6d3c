/**
 * The food registration page's client state: the tab, the six-field manual form,
 * the spreadsheet file chosen for import, and the loading, error and success flags.
 * The outcome of the service calls (`createFood`, `importFoodFromFile`) is a
 * parameter: `None` when the call resolved, `Some(message)` when it threw.
 */
module FoodCreate {
  import opened Wrappers
  import opened JsValues

  /** The six text inputs of the manual form, all kept as the typed text. */
  datatype Form = Form(description: string, servingSize: string, carbohydrates: string,
                       protein: string, totalFat: string, calories: string)

  /** The `name` attribute of each input. */
  datatype FormField = DescriptionInput | ServingSizeInput | CarbohydratesInput
                     | ProteinInput | TotalFatInput | CaloriesInput

  /** The chosen file; only its MIME type matters here. */
  datatype File = File(name: string, mimeType: string)

  datatype Page = Page(tab: int, form: Form, file: Option<File>, loading: bool,
                       error: Option<string>, success: Option<string>)

  /** What `createFood` is given: the description as typed and the five numbers. */
  datatype FoodRequest = FoodRequest(description: string, servingSize: Num, carbohydrates: Num,
                                     protein: Num, totalFat: Num, calories: Num)

  const EmptyForm := Form("", "", "", "", "", "")
  const InitialPage := Page(0, EmptyForm, None, false, None, None)

  const XlsType := "application/vnd.ms-excel"
  const XlsxType := "application/vnd.openxmlformats-officedocument.spreadsheetml.sheet"
  const InvalidFileError := "Por favor, selecione um arquivo Excel válido (.xls ou .xlsx)"
  const NoFileError := "Por favor, selecione um arquivo"
  const CreatedMessage := "Alimento cadastrado com sucesso!"
  const ImportedMessage := "Alimentos importados com sucesso!"

  /** A form input as text. */
  function FieldValue(f: Form, field: FormField): string {
    match field
    case DescriptionInput => f.description
    case ServingSizeInput => f.servingSize
    case CarbohydratesInput => f.carbohydrates
    case ProteinInput => f.protein
    case TotalFatInput => f.totalFat
    case CaloriesInput => f.calories
  }

  /** The form with one input set to new text and the other five kept. */
  function SetField(f: Form, field: FormField, value: string): (r: Form)
    ensures FieldValue(r, field) == value
    ensures forall g :: g != field ==> FieldValue(r, g) == FieldValue(f, g)
  {
    match field
    case DescriptionInput => f.(description := value)
    case ServingSizeInput => f.(servingSize := value)
    case CarbohydratesInput => f.(carbohydrates := value)
    case ProteinInput => f.(protein := value)
    case TotalFatInput => f.(totalFat := value)
    case CaloriesInput => f.(calories := value)
  }

  /** Two forms are equal exactly when every input holds the same text. */
  lemma {:induction false} FormExtensionality(f: Form, g: Form)
    requires forall field :: FieldValue(f, field) == FieldValue(g, field)
    ensures f == g
  {
    assert FieldValue(f, DescriptionInput) == FieldValue(g, DescriptionInput);
    assert FieldValue(f, ServingSizeInput) == FieldValue(g, ServingSizeInput);
    assert FieldValue(f, CarbohydratesInput) == FieldValue(g, CarbohydratesInput);
    assert FieldValue(f, ProteinInput) == FieldValue(g, ProteinInput);
    assert FieldValue(f, TotalFatInput) == FieldValue(g, TotalFatInput);
    assert FieldValue(f, CaloriesInput) == FieldValue(g, CaloriesInput);
  }

  /** `handleTabChange`: switches tab and clears both messages; the form and the file stay. */
  function TabChange(p: Page, newTab: int): (r: Page)
    ensures r.tab == newTab && r.error.None? && r.success.None?
    ensures r.form == p.form && r.file == p.file && r.loading == p.loading
  {
    p.(tab := newTab, error := None, success := None)
  }

  /**
   * Switching tabs keeps what was typed: it commutes with typing into an input. It
   * also clears the error a refused file left behind, and no file is kept.
   */
  lemma TabChangeKeepsInput(p: Page, field: FormField, value: string, newTab: int, selected: Option<File>)
    ensures TabChange(InputChange(p, field, value), newTab) == InputChange(TabChange(p, newTab), field, value)
    ensures !(selected.Some? && IsSpreadsheet(selected.value.mimeType)) ==>
      FileChange(p, selected).error == Some(InvalidFileError)
      && TabChange(FileChange(p, selected), newTab).error.None?
      && TabChange(FileChange(p, selected), newTab).file.None?
  {
  }

  /** `handleInputChange`: only the named input takes the new text; nothing else on the page changes. */
  function InputChange(p: Page, field: FormField, value: string): (r: Page)
    ensures FieldValue(r.form, field) == value
    ensures forall g :: g != field ==> FieldValue(r.form, g) == FieldValue(p.form, g)
    ensures r.(form := p.form) == p
  {
    p.(form := SetField(p.form, field, value))
  }

  /** Typing back the text an input held before undoes an input change. */
  lemma InputChangeUndone(p: Page, field: FormField, value: string)
    ensures InputChange(InputChange(p, field, value), field, FieldValue(p.form, field)) == p
  {
    var r := InputChange(InputChange(p, field, value), field, FieldValue(p.form, field));
    FormExtensionality(r.form, p.form);
  }

  /** The two spreadsheet MIME types the import accepts. */
  predicate IsSpreadsheet(mimeType: string) {
    mimeType == XlsType || mimeType == XlsxType
  }

  /**
   * `handleFileChange`: a file of one of the two spreadsheet types is kept and the
   * error cleared; any other file, or none, leaves no file and sets the error.
   */
  function FileChange(p: Page, selected: Option<File>): (r: Page)
    ensures r.file.Some? <==> selected.Some? && IsSpreadsheet(selected.value.mimeType)
    ensures r.file.Some? ==> r.file == selected && r.error.None?
    ensures r.file.None? ==> r.error == Some(InvalidFileError)
    ensures r.tab == p.tab && r.form == p.form && r.loading == p.loading && r.success == p.success
  {
    if selected.Some? && IsSpreadsheet(selected.value.mimeType) then
      p.(file := selected, error := None)
    else
      p.(error := Some(InvalidFileError), file := None)
  }

  /** The page after an import submit, and the file sent to the import service, if any. */
  datatype FileSubmission = FileSubmission(page: Page, sent: Option<File>)

  /**
   * `handleFileSubmit`: with no file it only sets the error, without entering
   * loading or sending anything. Otherwise it sends the file; on success the file is
   * dropped and the success message shown, on failure the thrown message becomes the
   * error; loading ends either way.
   */
  function FileSubmit(p: Page, outcome: Option<string>): (r: FileSubmission)
    ensures r.sent.None? <==> p.file.None?
    ensures p.file.None? ==> r.page == p.(error := Some(NoFileError))
    ensures r.sent.Some? ==> r.sent == p.file && !r.page.loading
    ensures r.sent.Some? && outcome.None? ==>
      r.page.file.None? && r.page.error.None? && r.page.success == Some(ImportedMessage)
    ensures r.sent.Some? && outcome.Some? ==>
      r.page.file == p.file && r.page.error == outcome && r.page.success.None?
    ensures r.page.tab == p.tab && r.page.form == p.form
  {
    if p.file.None? then
      FileSubmission(p.(error := Some(NoFileError)), None)
    else
      var started := p.(loading := true, error := None, success := None);
      var finished :=
        match outcome
        case None => started.(success := Some(ImportedMessage), file := None)
        case Some(message) => started.(error := Some(message));
      FileSubmission(finished.(loading := false), p.file)
  }

  /**
   * A file the page accepted is always sent on submit, and a refused one never is:
   * the submit guard and the file gate agree.
   */
  lemma AcceptedFileIsSent(p: Page, selected: Option<File>, outcome: Option<string>)
    ensures FileSubmit(FileChange(p, selected), outcome).sent.Some?
            <==> selected.Some? && IsSpreadsheet(selected.value.mimeType)
    ensures !(selected.Some? && IsSpreadsheet(selected.value.mimeType)) ==>
            FileSubmit(FileChange(p, selected), outcome).page.error == Some(NoFileError)
  {
  }

  /** `parseInt` and `parseFloat` results as numbers; a failed parse is NaN. */
  function IntOrNaN(n: Option<int>): (r: Num)
    ensures r.NaN? <==> n.None?
    ensures n.Some? ==> r == Fin(n.value as real)
  {
    match n
    case None => NaN
    case Some(k) => Fin(k as real)
  }

  function RealOrNaN(x: Option<real>): (r: Num)
    ensures r.NaN? <==> x.None?
    ensures x.Some? ==> r == Fin(x.value)
  {
    match x
    case None => NaN
    case Some(v) => Fin(v)
  }

  /**
   * The request `handleManualSubmit` builds: the description as typed, the serving
   * size through `parseInt`, the four macros through `parseFloat`.
   */
  function ManualRequest(f: Form, parseInt: string -> Option<int>, parseFloat: string -> Option<real>): (r: FoodRequest)
    ensures r.description == f.description
    ensures r.servingSize.NaN? <==> parseInt(f.servingSize).None?
    ensures parseInt(f.servingSize).Some? ==> r.servingSize == Fin(parseInt(f.servingSize).value as real)
    ensures r.carbohydrates == RealOrNaN(parseFloat(f.carbohydrates))
    ensures r.protein == RealOrNaN(parseFloat(f.protein))
    ensures r.totalFat == RealOrNaN(parseFloat(f.totalFat))
    ensures r.calories == RealOrNaN(parseFloat(f.calories))
  {
    FoodRequest(f.description, IntOrNaN(parseInt(f.servingSize)),
                RealOrNaN(parseFloat(f.carbohydrates)), RealOrNaN(parseFloat(f.protein)),
                RealOrNaN(parseFloat(f.totalFat)), RealOrNaN(parseFloat(f.calories)))
  }

  /** A whole number. */
  predicate IsWhole(x: real) {
    x == x.Floor as real
  }

  /**
   * The serving size a manual submit sends is NaN or a whole number. This follows
   * from modelling `parseInt` as yielding an integer or failing; a JavaScript
   * `parseInt` of a numeral too long for a double, which gives Infinity, is outside
   * the model.
   */
  lemma ServingSizeIsWhole(p: Page, parseInt: string -> Option<int>, parseFloat: string -> Option<real>,
                           outcome: Option<string>)
    ensures var n := ManualSubmit(p, parseInt, parseFloat, outcome).sent.servingSize;
      n.NaN? || (n.Fin? && IsWhole(n.v))
  {
  }

  /** The page after a manual submit and the request sent. */
  datatype ManualSubmission = ManualSubmission(page: Page, sent: FoodRequest)

  /**
   * `handleManualSubmit`: sends the converted form; on success every input is reset
   * to the empty text and the success message shown, on failure the form is kept and
   * the thrown message becomes the error; loading ends either way.
   */
  function ManualSubmit(p: Page, parseInt: string -> Option<int>, parseFloat: string -> Option<real>,
                        outcome: Option<string>): (r: ManualSubmission)
    ensures r.sent == ManualRequest(p.form, parseInt, parseFloat)
    ensures !r.page.loading && r.page.tab == p.tab && r.page.file == p.file
    ensures outcome.None? ==>
      (forall g :: FieldValue(r.page.form, g) == "") && r.page.error.None? && r.page.success == Some(CreatedMessage)
    ensures outcome.Some? ==>
      r.page.form == p.form && r.page.error == outcome && r.page.success.None?
  {
    var started := p.(loading := true, error := None, success := None);
    var request := ManualRequest(p.form, parseInt, parseFloat);
    var finished :=
      match outcome
      case None => started.(success := Some(CreatedMessage), form := EmptyForm)
      case Some(message) => started.(error := Some(message));
    ManualSubmission(finished.(loading := false), request)
  }

  /** After a successful manual submit the form is the one the page opens with. */
  lemma ManualSubmitResetsForm(p: Page, parseInt: string -> Option<int>, parseFloat: string -> Option<real>)
    ensures ManualSubmit(p, parseInt, parseFloat, None).page.form == InitialPage.form
  {
    var r := ManualSubmit(p, parseInt, parseFloat, None);
    FormExtensionality(r.page.form, EmptyForm);
  }
}
