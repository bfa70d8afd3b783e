/**
 * The browser side (`static/main.js`): `uploadFile` and `askQuestion`
 * write the upload status line, the file input's selection and the
 * result area of the page. The request each sends is returned, and the
 * response it would get (or the exception it would catch) is an input.
 */
module Client {
  import opened Wrappers
  import opened Strings
  import opened Text
  import opened Upload
  import opened Query

  // ---------------------------------------------------------------------
  // Numbers in text

  function Digit(d: nat): (c: char)
    requires d < 10
    ensures '0' <= c <= '9'
  {
    ('0' as int + d) as char
  }

  predicate IsDigit(c: char)
  {
    '0' <= c <= '9'
  }

  predicate AllDigits(s: string)
  {
    forall i :: 0 <= i < |s| ==> IsDigit(s[i])
  }

  /** A count in a template literal: its decimal digits. */
  function Decimal(n: nat): (s: string)
    ensures |s| > 0 && AllDigits(s)
  {
    if n < 10 then [Digit(n)] else Decimal(n / 10) + [Digit(n % 10)]
  }

  /** The value of a string of decimal digits. */
  function ParseDecimal(s: string): nat
    requires AllDigits(s)
  {
    if s == [] then 0 else ParseDecimal(s[..|s| - 1]) * 10 + (s[|s| - 1] as int - '0' as int)
  }

  /** The digits of a count read back give the count. */
  lemma {:induction false} ParseDecimalOfDecimal(n: nat)
    ensures ParseDecimal(Decimal(n)) == n
  {
    if n >= 10 {
      var s := Decimal(n);
      assert s[..|s| - 1] == Decimal(n / 10);
      ParseDecimalOfDecimal(n / 10);
    }
  }

  /** The run of decimal digits `s` starts with. */
  function LeadingDigits(s: string): (r: string)
    ensures |r| <= |s| && AllDigits(r)
  {
    if s != [] && IsDigit(s[0]) then [s[0]] + LeadingDigits(s[1..]) else []
  }

  /** Digits followed by the end or by a non-digit are read back as they are. */
  lemma {:induction false} LeadingDigitsOf(d: string, rest: string)
    requires AllDigits(d)
    requires rest == [] || !IsDigit(rest[0])
    ensures LeadingDigits(d + rest) == d
  {
    if d != [] {
      assert (d + rest)[1..] == d[1..] + rest;
      LeadingDigitsOf(d[1..], rest);
    }
  }

  // ---------------------------------------------------------------------
  // The upload status line

  /** The JSON fields of an `/upload` response that `uploadFile` reads; `None` is absent or null. */
  datatype UploadBody = UploadBody(successCount: Option<nat>, errors: Option<seq<string>>, detail: Option<string>)

  /** What `fetch` and `res.json()` deliver: a response, or the exception either throws. */
  datatype UploadResponse =
    | UploadThrown(message: string)
    | UploadAnswered(ok: bool, body: UploadBody)

  const ChooseFiles: string := "Выберите один или несколько файлов."
  const UploadedPrefix: string := "✅ Успешно загружено файлов: "
  const ErrorsLabel: string := " | Ошибки: "

  /** `data.success_count || 0`. */
  function SuccessShown(body: UploadBody): nat
  {
    match body.successCount
    case Some(n) => n
    case None => 0
  }

  /** `data.errors ? data.errors.join(', ') : ''`. */
  function ErrorFiles(body: UploadBody): string
  {
    match body.errors
    case Some(errors) => JoinWith(", ", errors)
    case None => ""
  }

  /** `data.detail || 'Неизвестно'`: an absent or empty detail falls back. */
  function DetailShown(body: UploadBody): string
  {
    match body.detail
    case Some(d) => if d == "" then "Неизвестно" else d
    case None => "Неизвестно"
  }

  /** The status line `uploadFile` leaves once the request is answered or fails. */
  function UploadStatus(response: UploadResponse): string
  {
    match response
    case UploadThrown(message) => NetworkErrorPrefix + message
    case UploadAnswered(ok, body) =>
      if ok then
        UploadedPrefix + Decimal(SuccessShown(body)) +
          (if ErrorFiles(body) != "" then ErrorsLabel + ErrorFiles(body) else "")
      else ErrorPrefix + DetailShown(body)
  }

  /** Reading the count back from a success status line: the digits after the prefix. */
  function CountInStatus(status: string): nat
  {
    if |status| >= |UploadedPrefix| then ParseDecimal(LeadingDigits(status[|UploadedPrefix|..])) else 0
  }

  /**
   * A success status line starts with the prefix and carries the count
   * shown, which can be read back from it; the errors segment is there
   * exactly when the joined errors are not empty, and then ends the line.
   */
  lemma SuccessStatus(body: UploadBody)
    ensures var s := UploadStatus(UploadAnswered(true, body));
      s[..|UploadedPrefix|] == UploadedPrefix && CountInStatus(s) == SuccessShown(body)
    ensures var s, e := UploadStatus(UploadAnswered(true, body)), ErrorFiles(body);
      (e != "" ==> |s| > |ErrorsLabel + e| && s[|s| - |ErrorsLabel + e|..] == ErrorsLabel + e) &&
      (e == "" ==> s == UploadedPrefix + Decimal(SuccessShown(body)))
  {
    var d := Decimal(SuccessShown(body));
    var tail := if ErrorFiles(body) != "" then ErrorsLabel + ErrorFiles(body) else "";
    var s := UploadStatus(UploadAnswered(true, body));
    assert s == UploadedPrefix + (d + tail);
    assert s[|UploadedPrefix|..] == d + tail;
    assert tail == [] || tail[0] == ' ';
    LeadingDigitsOf(d, tail);
    ParseDecimalOfDecimal(SuccessShown(body));
    if ErrorFiles(body) == "" {
      assert tail == [];
    }
  }

  const ErrorPrefix: string := "❌ Ошибка: "
  const NetworkErrorPrefix: string := "❌ Сетевая ошибка: "

  /**
   * A refused upload shows the error prefix and then the server's `detail`,
   * or "Неизвестно" when the detail is absent or empty; a failed request
   * shows the network-error prefix and then the exception's message.
   */
  lemma FailureStatus(body: UploadBody, message: string)
    ensures var s := UploadStatus(UploadAnswered(false, body));
      |ErrorPrefix| <= |s| && s[..|ErrorPrefix|] == ErrorPrefix &&
      (body.detail.Some? && body.detail.value != "" ==> s[|ErrorPrefix|..] == body.detail.value) &&
      (body.detail.None? || body.detail.value == "" ==> s[|ErrorPrefix|..] == "Неизвестно")
    ensures var s := UploadStatus(UploadThrown(message));
      |NetworkErrorPrefix| <= |s| && s[..|NetworkErrorPrefix|] == NetworkErrorPrefix &&
      s[|NetworkErrorPrefix|..] == message
  {
    var s := UploadStatus(UploadAnswered(false, body));
    assert s == ErrorPrefix + DetailShown(body);
    assert s[|ErrorPrefix|..] == DetailShown(body);
    var t := UploadStatus(UploadThrown(message));
    assert t == NetworkErrorPrefix + message;
    assert t[|NetworkErrorPrefix|..] == message;
  }

  // ---------------------------------------------------------------------
  // The answer area

  /** The answer HTML for one character of the answer text. */
  function LineBreak(c: char): string
  {
    if c == '\n' then "<br>" else [c]
  }

  /** `text.replace(/\n/g, '<br>')`. */
  function ReplaceNewlines(text: string): string
  {
    if text == [] then [] else ReplaceNewlines(text[..|text| - 1]) + LineBreak(text[|text| - 1])
  }

  /** The number of newlines in `text`. */
  function Newlines(text: string): nat
  {
    if text == [] then 0 else Newlines(text[..|text| - 1]) + (if text[|text| - 1] == '\n' then 1 else 0)
  }

  /** Replacing newlines works piece by piece: each character is replaced on its own. */
  lemma {:induction false} ReplaceNewlinesAppend(a: string, b: string)
    ensures ReplaceNewlines(a + b) == ReplaceNewlines(a) + ReplaceNewlines(b)
  {
    if b != [] {
      var init := b[..|b| - 1];
      assert (a + b)[..|a + b| - 1] == a + init;
      ReplaceNewlinesAppend(a, init);
    } else {
      assert a + b == a;
    }
  }

  /**
   * Replacing newlines leaves no newline, grows the text by three
   * characters per newline, and leaves a text without newlines as it is.
   */
  lemma {:induction false} ReplaceNewlinesShape(text: string)
    ensures '\n' !in ReplaceNewlines(text)
    ensures |ReplaceNewlines(text)| == |text| + 3 * Newlines(text)
    ensures Newlines(text) == 0 ==> ReplaceNewlines(text) == text
  {
    if text != [] {
      var init := text[..|text| - 1];
      ReplaceNewlinesShape(init);
      assert text == init + [text[|text| - 1]];
    }
  }

  /** The JSON fields of a `/query` response that `askQuestion` reads. */
  datatype QueryBody = QueryBody(answer: Option<string>, sources: Option<seq<string>>)

  /** What `fetch` and `res.json()` deliver for `/query`: a body, or the exception either throws. */
  datatype QueryResponse =
    | QueryThrown(message: string)
    | QueryAnswered(body: QueryBody)

  const Thinking: string := "<p>Думаю... (это может занять 10–30 секунд)</p>"

  /** The sources line: present exactly when `sources` is (an empty list included). */
  function SourcesLine(sources: Option<seq<string>>): string
  {
    match sources
    case Some(s) => "<div class=\"sources\"><strong>Источники:</strong> " + JoinWith(", ", s) + "</div>"
    case None => ""
  }

  /**
   * The result area after `askQuestion`. Reading `replace` of a missing
   * `answer` throws a `TypeError`, whose text (`typeError`) the browser
   * supplies; it lands in the same catch as a network failure.
   */
  function AnswerHtml(response: QueryResponse, typeError: string): string
  {
    match response
    case QueryThrown(message) => "<p>❌ Ошибка: " + message + "</p>"
    case QueryAnswered(body) =>
      match body.answer
      case None => "<p>❌ Ошибка: " + typeError + "</p>"
      case Some(answer) =>
        "<h3>Ответ:</h3><p>" + ReplaceNewlines(answer) + "</p>" + SourcesLine(body.sources)
  }

  /**
   * An answered body gives the answer with line breaks, and the sources
   * line at the end exactly when `sources` is present.
   */
  lemma AnswerLayout(answer: string, sources: Option<seq<string>>, typeError: string)
    ensures var h, p := AnswerHtml(QueryAnswered(QueryBody(Some(answer), sources)), typeError), "<h3>Ответ:</h3><p>" + ReplaceNewlines(answer) + "</p>";
      |p| <= |h| && h[..|p|] == p &&
      (sources.None? <==> h == p) &&
      (sources.Some? ==> h[|p|..] == SourcesLine(sources))
  {
    var p := "<h3>Ответ:</h3><p>" + ReplaceNewlines(answer) + "</p>";
    var h := AnswerHtml(QueryAnswered(QueryBody(Some(answer), sources)), typeError);
    assert h == p + SourcesLine(sources);
    if sources.Some? {
      assert |SourcesLine(sources)| > 0;
    }
  }

  // ---------------------------------------------------------------------
  // The page

  /** The parts of the page the two handlers read and write. */
  class Page {
    /** The files chosen in the file input (`fileInput.files`). */
    var selectedFiles: seq<string>
    /** The upload status line (`uploadStatus.textContent`). */
    var status: string
    /** The question box (`question.value`). */
    var questionInput: string
    /** The result area (`result.innerHTML`) and whether it is shown. */
    var resultHtml: string
    var resultShown: bool

    constructor ()
      ensures selectedFiles == [] && status == "" && questionInput == "" && resultHtml == "" && !resultShown
    {
      selectedFiles := [];
      status := "";
      questionInput := "";
      resultHtml := "";
      resultShown := false;
    }

    /**
     * `uploadFile`. With no file chosen it only asks for one and sends
     * nothing. Otherwise it sends the chosen files, in order, under the
     * `files` key, and the status line ends as `UploadStatus` says; the
     * selection is cleared only on an OK response.
     */
    method UploadFile(response: UploadResponse) returns (sent: Option<seq<string>>)
      modifies this
      ensures old(selectedFiles) == [] ==>
        sent == None && status == ChooseFiles && selectedFiles == old(selectedFiles)
      ensures old(selectedFiles) != [] ==>
        sent == Some(old(selectedFiles)) && status == UploadStatus(response) &&
        selectedFiles == (if response.UploadAnswered? && response.ok then [] else old(selectedFiles))
      ensures questionInput == old(questionInput) && resultHtml == old(resultHtml) && resultShown == old(resultShown)
    {
      var files := selectedFiles;
      if |files| == 0 {
        status := ChooseFiles;
        return None;
      }
      var formData: seq<string> := [];
      for i := 0 to |files|
        invariant formData == files[..i]
      {
        formData := formData + [files[i]];
      }
      assert files[..|files|] == files;
      sent := Some(formData);
      status := "Загрузка " + Decimal(|files|) + " файла(ов)...";
      match response {
        case UploadThrown(message) =>
          status := NetworkErrorPrefix + message;
        case UploadAnswered(ok, data) =>
          if ok {
            var successCount := SuccessShown(data);
            var errorFiles := ErrorFiles(data);
            var msg := UploadedPrefix + Decimal(successCount);
            if errorFiles != "" {
              msg := msg + ErrorsLabel + errorFiles;
            }
            status := msg;
            selectedFiles := [];
          } else {
            status := ErrorPrefix + DetailShown(data);
          }
      }
    }

    /**
     * `askQuestion`. A question that is empty once trimmed sends nothing
     * and leaves the result area alone (the alert is not modelled).
     * Otherwise the trimmed question is sent, and the result area is shown
     * with the HTML `AnswerHtml` gives for the response.
     */
    method AskQuestion(response: QueryResponse, typeError: string) returns (sent: Option<string>)
      modifies this
      ensures JsBlank(old(questionInput)) ==>
        sent == None && resultHtml == old(resultHtml) && resultShown == old(resultShown)
      ensures !JsBlank(old(questionInput)) ==>
        sent == Some(JsTrim(old(questionInput))) && resultShown && resultHtml == AnswerHtml(response, typeError)
      ensures selectedFiles == old(selectedFiles) && status == old(status) && questionInput == old(questionInput)
    {
      var question := JsTrim(questionInput);
      JsTrimEmptyIffBlank(questionInput);
      if question == "" {
        return None;
      }
      resultShown := true;
      resultHtml := Thinking;
      sent := Some(question);
      match response {
        case QueryThrown(message) =>
          resultHtml := "<p>❌ Ошибка: " + message + "</p>";
        case QueryAnswered(data) =>
          if data.answer.None? {
            resultHtml := "<p>❌ Ошибка: " + typeError + "</p>";
          } else {
            var html := "<h3>Ответ:</h3><p>" + ReplaceNewlines(data.answer.value) + "</p>";
            if data.sources.Some? {
              html := html + SourcesLine(data.sources);
            }
            resultHtml := html;
          }
      }
    }
  }

  // ---------------------------------------------------------------------
  // Client and server together

  /** The JSON the server sends for an `/upload` reply, as the client reads it. */
  function UploadJson(reply: UploadReply): UploadResponse
  {
    match reply
    case UploadRejected(_, detail) => UploadAnswered(false, UploadBody(None, None, Some(detail)))
    case UploadSummary(successCount, _, errors) => UploadAnswered(true, UploadBody(Some(successCount), errors, None))
  }

  /** The JSON the server sends for a `/query` reply, as the client reads it. */
  function QueryJson(reply: QueryReply): QueryResponse
  {
    match reply
    case QueryRejected(_, _) => QueryAnswered(QueryBody(None, None))
    case Notice(answer) => QueryAnswered(QueryBody(Some(answer), None))
    case Answered(_, answer, sources) => QueryAnswered(QueryBody(Some(answer), Some(sources)))
  }

  /**
   * For a question the server accepts, the client shows the server's
   * answer with line breaks, followed by the sources line exactly when the
   * server answered from retrieved chunks.
   */
  lemma QueryRoundTrip(question: string, entries: seq<Entry>, hits: seq<Entry>, ask: (string, string) -> string, typeError: string)
    requires !Blank(question)
    ensures var reply := QueryKnowledge(question, entries, hits, ask);
      var h, p := AnswerHtml(QueryJson(reply), typeError), "<h3>Ответ:</h3><p>" + ReplaceNewlines(reply.answer) + "</p>";
      |p| <= |h| && h[..|p|] == p &&
      (h == p <==> !reply.Answered?) &&
      (reply.Answered? ==> h[|p|..] == SourcesLine(Some(reply.sources)))
  {
    var reply := QueryKnowledge(question, entries, hits, ask);
    var sources := if reply.Answered? then Some(reply.sources) else None;
    assert QueryJson(reply) == QueryAnswered(QueryBody(Some(reply.answer), sources));
    AnswerLayout(reply.answer, sources, typeError);
  }

  /**
   * After the server processes a non-empty batch, the client's status line
   * carries the server's success count and shows the errors segment
   * exactly when some file failed, listing every error entry in order.
   */
  lemma UploadRoundTrip(files: seq<IncomingFile>)
    requires files != []
    ensures var reports := Reports(files);
      var reply := UploadSummary(SuccessCount(reports), |files|, if Errors(reports) == [] then None else Some(Errors(reports)));
      var s := UploadStatus(UploadJson(reply));
      CountInStatus(s) == SuccessCount(reports) &&
      (Errors(reports) == [] <==> s == UploadedPrefix + Decimal(SuccessCount(reports))) &&
      (Errors(reports) != [] ==> s[|s| - |ErrorsLabel + JoinWith(", ", Errors(reports))|..] == ErrorsLabel + JoinWith(", ", Errors(reports)))
  {
    var reports := Reports(files);
    var errors := if Errors(reports) == [] then None else Some(Errors(reports));
    var reply := UploadSummary(SuccessCount(reports), |files|, errors);
    var body := UploadBody(Some(SuccessCount(reports)), errors, None);
    assert UploadJson(reply) == UploadAnswered(true, body);
    SuccessStatus(body);
    if Errors(reports) != [] {
      assert JoinWith(", ", Errors(reports)) != "" by {
        FirstErrorNotEmpty(reports);
        JoinLongerThanPart(", ", Errors(reports), 0);
      }
      assert ErrorFiles(body) == JoinWith(", ", Errors(reports));
    }
  }

  /** Every error entry names its file and so is not empty. */
  lemma {:induction false} FirstErrorNotEmpty(reports: seq<Report>)
    requires Errors(reports) != []
    ensures |Errors(reports)[0]| > 0
  {
    var init := reports[..|reports| - 1];
    var last := reports[|reports| - 1];
    if Errors(init) != [] {
      FirstErrorNotEmpty(init);
      assert Errors(reports)[0] == Errors(init)[0];
    } else {
      ErrorEntryNamesFile(last.filename, last.outcome.failure);
    }
  }

  /**
   * The client's guard and the server's disagree: U+001C is whitespace to
   * Python but not to JavaScript, so a question made of it is sent, refused
   * with 400, and the client, reading `answer` of the error body, shows the
   * `TypeError` instead of the server's message.
   */
  lemma ControlCharacterQuestion(entries: seq<Entry>, hits: seq<Entry>, ask: (string, string) -> string, typeError: string)
    ensures var q := "\U{001C}";
      !JsBlank(q) && JsTrim(q) == q &&
      QueryKnowledge(q, entries, hits, ask) == QueryRejected(400, "Вопрос не может быть пустым") &&
      AnswerHtml(QueryJson(QueryKnowledge(q, entries, hits, ask)), typeError) == "<p>❌ Ошибка: " + typeError + "</p>"
  {
    var q := "\U{001C}";
    assert !IsJsSpace(q[0]);
    assert IsSpace(q[0]);
    StripEmptyIffBlank(q);
  }

  /**
   * The other way round, U+FEFF is whitespace to JavaScript but not to
   * Python: the client refuses a question the server would accept.
   */
  lemma ByteOrderMarkQuestion()
    ensures var q := "\U{FEFF}"; JsBlank(q) && !Blank(q)
  {
    var q := "\U{FEFF}";
    assert IsJsSpace(q[0]);
    assert !IsSpace(q[0]);
  }

  /** Apart from U+001C..U+001F, U+0085 and U+FEFF, the two whitespace classes agree. */
  lemma GuardsAgree(s: string)
    requires forall i :: 0 <= i < |s| ==> !('\U{001C}' <= s[i] <= '\U{001F}') && s[i] != '\U{0085}' && s[i] != '\U{FEFF}'
    ensures JsBlank(s) <==> Blank(s)
  {
  }

  /**
   * A question the client sends is non-blank to the server as well, so it
   * reaches the collection, whenever it has none of the characters where
   * the classes differ.
   */
  lemma SentQuestionAccepted(input: string, entries: seq<Entry>, hits: seq<Entry>, ask: (string, string) -> string)
    requires !JsBlank(input)
    requires forall i :: 0 <= i < |input| ==> !('\U{001C}' <= input[i] <= '\U{001F}') && input[i] != '\U{0085}' && input[i] != '\U{FEFF}'
    ensures !QueryKnowledge(JsTrim(input), entries, hits, ask).QueryRejected?
  {
    var q := JsTrim(input);
    JsTrimEmptyIffBlank(input);
    var a := JsTrimIsInfix(input);
    assert forall i :: 0 <= i < |q| ==> q[i] == input[a + i];
    GuardsAgree(q);
    assert q != [] && !IsJsSpace(q[0]);
  }

  /** `trim()` returns a piece of its input, starting at `a`. */
  lemma JsTrimIsInfix(s: string) returns (a: nat)
    ensures a + |JsTrim(s)| <= |s| && JsTrim(s) == s[a..a + |JsTrim(s)|]
  {
    var t := JsTrimStart(s);
    JsTrimStartShape(s);
    JsTrimEndShape(t);
    var r := JsTrim(s);
    a := |s| - |t|;
    assert r == t[..|r|];
    assert s[a..a + |r|] == t[..|r|];
  }
}
