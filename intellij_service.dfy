// The IntelliJ language-service backend as the editor sees it: the bridge's
// diagnostics and completion records converted to Language Server Protocol
// values, and the table of open documents that lets later diagnostics find
// their URI.
//
// The bridge client is outside the model: each request it would send is
// appended to the backend's `calls` log and its reply is a parameter; the
// notifications it has received are the `incoming` queue. URI parsing is a
// parameter as well (`None` is a parse error).
module IntellijService {
  import opened Wrappers

  // ------------------------------------------------------------ severities

  datatype SeverityModel = SeverityUnknown | SeverityError | SeverityWarning | SeverityInformation | SeverityHint

  /** The protocol's DiagnosticSeverity codes. */
  const LspError: int := 1
  const LspWarning: int := 2
  const LspInformation: int := 3
  const LspHint: int := 4

  /** `map_severity`: unknown has no protocol severity. */
  function MapSeverity(s: SeverityModel): (r: Option<int>)
    ensures r.None? <==> s == SeverityUnknown
    ensures r.Some? ==> LspError <= r.value <= LspHint && SeverityFromLsp(r.value) == s
  {
    match s
    case SeverityUnknown => None
    case SeverityError => Some(LspError)
    case SeverityWarning => Some(LspWarning)
    case SeverityInformation => Some(LspInformation)
    case SeverityHint => Some(LspHint)
  }

  function SeverityFromLsp(code: int): SeverityModel {
    if code == LspError then SeverityError
    else if code == LspWarning then SeverityWarning
    else if code == LspInformation then SeverityInformation
    else if code == LspHint then SeverityHint
    else SeverityUnknown
  }

  // ------------------------------------------------------------ completion kinds

  datatype CompletionKindModel =
    | KindUnknown | KindText | KindMethod | KindFunction | KindConstructor | KindField
    | KindVariable | KindClass | KindInterface | KindModule | KindProperty | KindValue
    | KindEnum | KindKeyword | KindSnippet | KindColor | KindFile | KindReference
    | KindFolder | KindEnumMember | KindConstant | KindStruct | KindEvent | KindOperator
    | KindTypeParameter

  /**
   * The protocol's CompletionItemKind code of the one kind the bridge has
   * no model for.
   */
  const LspUnit: int := 11

  /** `map_completion_item_kind`: every known kind to its protocol code. */
  function MapCompletionKind(k: CompletionKindModel): (r: Option<int>)
    ensures r.None? <==> k == KindUnknown
    ensures r.Some? ==> 1 <= r.value <= 25 && r.value != LspUnit && KindFromLsp(r.value) == k
  {
    match k
    case KindUnknown => None
    case KindText => Some(1)
    case KindMethod => Some(2)
    case KindFunction => Some(3)
    case KindConstructor => Some(4)
    case KindField => Some(5)
    case KindVariable => Some(6)
    case KindClass => Some(7)
    case KindInterface => Some(8)
    case KindModule => Some(9)
    case KindProperty => Some(10)
    case KindValue => Some(12)
    case KindEnum => Some(13)
    case KindKeyword => Some(14)
    case KindSnippet => Some(15)
    case KindColor => Some(16)
    case KindFile => Some(17)
    case KindReference => Some(18)
    case KindFolder => Some(19)
    case KindEnumMember => Some(20)
    case KindConstant => Some(21)
    case KindStruct => Some(22)
    case KindEvent => Some(23)
    case KindOperator => Some(24)
    case KindTypeParameter => Some(25)
  }

  function KindFromLsp(code: int): CompletionKindModel {
    match code
    case 1 => KindText
    case 2 => KindMethod
    case 3 => KindFunction
    case 4 => KindConstructor
    case 5 => KindField
    case 6 => KindVariable
    case 7 => KindClass
    case 8 => KindInterface
    case 9 => KindModule
    case 10 => KindProperty
    case 12 => KindValue
    case 13 => KindEnum
    case 14 => KindKeyword
    case 15 => KindSnippet
    case 16 => KindColor
    case 17 => KindFile
    case 18 => KindReference
    case 19 => KindFolder
    case 20 => KindEnumMember
    case 21 => KindConstant
    case 22 => KindStruct
    case 23 => KindEvent
    case 24 => KindOperator
    case 25 => KindTypeParameter
    case _ => KindUnknown
  }

  /** Two different kinds never share a protocol code. */
  lemma CompletionKindsDistinct(a: CompletionKindModel, b: CompletionKindModel)
    requires MapCompletionKind(a).Some? && MapCompletionKind(a) == MapCompletionKind(b)
    ensures a == b
  {
  }

  // ------------------------------------------------------------ positions

  /** A bridge position: signed 32-bit line and character. */
  datatype PositionData = PositionData(line: int, character: int)
  datatype RangeData = RangeData(start: PositionData, end: PositionData)

  /** A protocol position: unsigned line and character. */
  datatype Position = Position(line: nat, character: nat)
  datatype Range = Range(start: Position, end: Position)

  /** `convert_position`: negative coordinates become 0, others are kept. */
  function ConvertPosition(p: PositionData): (r: Position)
    ensures p.line >= 0 ==> r.line == p.line
    ensures p.line < 0 ==> r.line == 0
    ensures p.character >= 0 ==> r.character == p.character
    ensures p.character < 0 ==> r.character == 0
  {
    Position(if p.line < 0 then 0 else p.line, if p.character < 0 then 0 else p.character)
  }

  /** Clamping keeps the order of lines. */
  lemma ConvertPositionMonotone(a: PositionData, b: PositionData)
    requires a.line <= b.line
    ensures ConvertPosition(a).line <= ConvertPosition(b).line
  {
  }

  function ConvertRange(r: RangeData): Range {
    Range(ConvertPosition(r.start), ConvertPosition(r.end))
  }

  // ------------------------------------------------------------ diagnostics

  type Uri = string

  datatype DiagnosticData = DiagnosticData(
    range: RangeData, severity: SeverityModel, code: Option<string>, message: string, source: Option<string>)

  datatype DiagnosticsNotification = DiagnosticsNotification(
    workspaceId: string, documentId: string, version: int, full: bool, diagnostics: seq<DiagnosticData>)

  /** A protocol diagnostic; a code is always the string form. */
  datatype LspDiagnostic = LspDiagnostic(
    range: Range, severity: Option<int>, code: Option<string>, source: Option<string>, message: string)

  datatype PublishDiagnosticsParams = PublishDiagnosticsParams(uri: Uri, diagnostics: seq<LspDiagnostic>, version: Option<int>)

  datatype DiagnosticsUpdate = DiagnosticsUpdate(
    workspaceId: string, documentId: string, params: PublishDiagnosticsParams, full: bool)

  /** `convert_diagnostic`: range clamped, severity mapped, text kept. */
  function ConvertDiagnostic(d: DiagnosticData): (r: LspDiagnostic)
    ensures r.range == ConvertRange(d.range) && r.severity == MapSeverity(d.severity)
    ensures r.code == d.code && r.source == d.source && r.message == d.message
  {
    LspDiagnostic(ConvertRange(d.range), MapSeverity(d.severity), d.code, d.source, d.message)
  }

  function ConvertAll(ds: seq<DiagnosticData>): (r: seq<LspDiagnostic>)
    ensures |r| == |ds| && forall i | 0 <= i < |ds| :: r[i] == ConvertDiagnostic(ds[i])
  {
    if ds == [] then [] else [ConvertDiagnostic(ds[0])] + ConvertAll(ds[1..])
  }

  /**
   * `convert_diagnostics`: ids, version and the full flag carried over,
   * each diagnostic converted in order.
   */
  function ConvertDiagnostics(n: DiagnosticsNotification, uri: Uri): (r: DiagnosticsUpdate)
    ensures r.workspaceId == n.workspaceId && r.documentId == n.documentId && r.full == n.full
    ensures r.params.uri == uri && r.params.version == Some(n.version)
    ensures |r.params.diagnostics| == |n.diagnostics|
    ensures forall i | 0 <= i < |n.diagnostics| :: r.params.diagnostics[i] == ConvertDiagnostic(n.diagnostics[i])
  {
    DiagnosticsUpdate(n.workspaceId, n.documentId, PublishDiagnosticsParams(uri, ConvertAll(n.diagnostics), Some(n.version)), n.full)
  }

  /**
   * Conversion of a batch is conversion of its parts, so splitting a
   * batch never reorders diagnostics.
   */
  lemma {:induction false} ConvertAllAppend(a: seq<DiagnosticData>, b: seq<DiagnosticData>)
    ensures ConvertAll(a + b) == ConvertAll(a) + ConvertAll(b)
  {
    if a != [] {
      assert (a + b)[1..] == a[1..] + b;
      ConvertAllAppend(a[1..], b);
    } else {
      assert a + b == b;
    }
  }

  // ------------------------------------------------------------ completions

  /** A completion item from the bridge; `caption` is the source's `label`, a reserved word in Dafny. */
  datatype CompletionItemData = CompletionItemData(
    caption: string, detail: Option<string>, documentation: Option<string>,
    insertText: Option<string>, kind: Option<CompletionKindModel>)

  datatype CompletionResponseData = CompletionResponseData(items: seq<CompletionItemData>, isIncomplete: bool)

  /** The LSP completion item; `caption` is its `label`. */
  datatype CompletionItem = CompletionItem(
    caption: string, detail: Option<string>, documentation: Option<string>,
    insertText: Option<string>, kind: Option<int>)

  datatype CompletionList = CompletionList(isIncomplete: bool, items: seq<CompletionItem>)

  /** `convert_completion_item`: text kept; an unknown kind becomes none. */
  function ConvertCompletionItem(item: CompletionItemData): (r: CompletionItem)
    ensures r.caption == item.caption && r.detail == item.detail
    ensures r.documentation == item.documentation && r.insertText == item.insertText
    ensures r.kind.Some? <==> item.kind.Some? && item.kind.value != KindUnknown
    ensures r.kind.Some? ==> KindFromLsp(r.kind.value) == item.kind.value
  {
    CompletionItem(item.caption, item.detail, item.documentation, item.insertText,
      if item.kind.Some? then MapCompletionKind(item.kind.value) else None)
  }

  function ConvertItems(items: seq<CompletionItemData>): (r: seq<CompletionItem>)
    ensures |r| == |items| && forall i | 0 <= i < |items| :: r[i] == ConvertCompletionItem(items[i])
  {
    if items == [] then [] else [ConvertCompletionItem(items[0])] + ConvertItems(items[1..])
  }

  /**
   * `convert_completion_response`: always a list, with the incomplete
   * flag kept and each item converted in order.
   */
  function ConvertCompletionResponse(response: CompletionResponseData): (r: CompletionList)
    ensures r.isIncomplete == response.isIncomplete
    ensures |r.items| == |response.items|
    ensures forall i | 0 <= i < |r.items| :: r.items[i] == ConvertCompletionItem(response.items[i])
  {
    CompletionList(response.isIncomplete, ConvertItems(response.items))
  }

  // ------------------------------------------------------------ the backend

  datatype WorkspaceEvent = WorkspaceEvent(workspaceId: string, kind: string, payload: string)

  datatype BridgeNotification =
    | BridgeDiagnostics(diagnostics: DiagnosticsNotification)
    | BridgeWorkspaceEvent(event: WorkspaceEvent)

  datatype Notification =
    | Diagnostics(update: DiagnosticsUpdate)
    | WorkspaceEventNotification(event: WorkspaceEvent)

  /** A request the backend sends over the bridge. */
  datatype Call =
    | OpenCall(workspaceId: string, documentId: string, uri: string, languageId: string, text: string)
    | ChangeCall(workspaceId: string, documentId: string, text: string)
    | CloseCall(workspaceId: string, documentId: string)
    | CompletionCall(workspaceId: string, documentId: string, line: int, character: int)

  type DocumentKey = (string, string)

  /**
   * How many notifications at the front of `queue` are dropped before the
   * first one worth reporting: diagnostics for documents not in the table.
   */
  function Skipped(documents: map<DocumentKey, Uri>, queue: seq<BridgeNotification>): (k: nat)
    ensures k <= |queue|
    ensures forall i | 0 <= i < k :: Dropped(documents, queue[i])
    ensures k < |queue| ==> !Dropped(documents, queue[k])
  {
    if queue == [] || !Dropped(documents, queue[0]) then 0
    else 1 + Skipped(documents, queue[1..])
  }

  /**
   * The first notification worth reporting and what is left after it;
   * an exhausted queue reports nothing.
   */
  function Poll(documents: map<DocumentKey, Uri>, queue: seq<BridgeNotification>): (r: (Option<Notification>, seq<BridgeNotification>))
  {
    var k := Skipped(documents, queue);
    if k == |queue| then (None, []) else (Some(Reported(documents, queue[k])), queue[k + 1..])
  }

  /** Dropping one notification does not change what a poll reports. */
  lemma PollPastDropped(documents: map<DocumentKey, Uri>, queue: seq<BridgeNotification>)
    requires queue != [] && Dropped(documents, queue[0])
    ensures Poll(documents, queue[1..]) == Poll(documents, queue)
  {
    var k := Skipped(documents, queue[1..]);
    assert Skipped(documents, queue) == k + 1;
    if k < |queue[1..]| {
      assert queue[1..][k] == queue[k + 1];
      assert queue[1..][k + 1..] == queue[k + 2..];
    }
  }

  /** Diagnostics for a document the table does not know. */
  predicate Dropped(documents: map<DocumentKey, Uri>, n: BridgeNotification) {
    n.BridgeDiagnostics? && (n.diagnostics.workspaceId, n.diagnostics.documentId) !in documents
  }

  function Reported(documents: map<DocumentKey, Uri>, n: BridgeNotification): Notification
    requires !Dropped(documents, n)
  {
    match n
    case BridgeDiagnostics(d) => Diagnostics(ConvertDiagnostics(d, documents[(d.workspaceId, d.documentId)]))
    case BridgeWorkspaceEvent(e) => WorkspaceEventNotification(e)
  }

  /**
   * A reported diagnostics update always belongs to an open document and
   * carries the URI it was opened with.
   */
  lemma ReportedDiagnosticsAreTracked(documents: map<DocumentKey, Uri>, queue: seq<BridgeNotification>)
    requires Poll(documents, queue).0.Some? && Poll(documents, queue).0.value.Diagnostics?
    ensures var u := Poll(documents, queue).0.value.update;
      (u.workspaceId, u.documentId) in documents && u.params.uri == documents[(u.workspaceId, u.documentId)]
  {
    var k := Skipped(documents, queue);
    assert !Dropped(documents, queue[k]);
  }

  class IntellijBackend {
    var documents: map<DocumentKey, Uri>
    var calls: seq<Call>
    var incoming: seq<BridgeNotification>

    constructor()
      ensures documents == map[] && calls == [] && incoming == []
    {
      documents, calls, incoming := map[], [], [];
    }

    /**
     * `open_document`: a bad URI fails before anything is sent; a failed
     * request records nothing; otherwise the document is recorded with its
     * parsed URI and the reply's diagnostics are converted.
     */
    method OpenDocument(workspaceId: string, documentId: string, uri: string, languageId: string, text: string,
                        parsedUri: Option<Uri>, reply: Result<DiagnosticsNotification, string>)
      returns (r: Result<DiagnosticsUpdate, string>)
      modifies this`documents, this`calls
      ensures parsedUri.None? ==> r.Err? && documents == old(documents) && calls == old(calls)
      ensures parsedUri.Some? ==> calls == old(calls) + [OpenCall(workspaceId, documentId, uri, languageId, text)]
      ensures parsedUri.Some? && reply.Err? ==> r == Err(reply.error) && documents == old(documents)
      ensures parsedUri.Some? && reply.Ok? ==>
        && documents == old(documents)[(workspaceId, documentId) := parsedUri.value]
        && r == Ok(ConvertDiagnostics(reply.value, parsedUri.value))
    {
      if parsedUri.None? {
        return Err("invalid document URI: " + uri);
      }
      calls := calls + [OpenCall(workspaceId, documentId, uri, languageId, text)];
      if reply.Err? {
        return Err(reply.error);
      }
      documents := documents[(workspaceId, documentId) := parsedUri.value];
      r := Ok(ConvertDiagnostics(reply.value, parsedUri.value));
    }

    /**
     * `change_document`: an unknown document fails before anything is
     * sent; the reply's diagnostics use the URI recorded at open.
     */
    method ChangeDocument(workspaceId: string, documentId: string, newText: string,
                          reply: Result<DiagnosticsNotification, string>)
      returns (r: Result<DiagnosticsUpdate, string>)
      modifies this`calls
      ensures (workspaceId, documentId) !in documents ==> r.Err? && calls == old(calls)
      ensures (workspaceId, documentId) in documents ==>
        && calls == old(calls) + [ChangeCall(workspaceId, documentId, newText)]
        && (reply.Err? ==> r == Err(reply.error))
        && (reply.Ok? ==> r == Ok(ConvertDiagnostics(reply.value, documents[(workspaceId, documentId)])))
    {
      if (workspaceId, documentId) !in documents {
        return Err("unknown document " + documentId);
      }
      var uri := documents[(workspaceId, documentId)];
      calls := calls + [ChangeCall(workspaceId, documentId, newText)];
      if reply.Err? {
        return Err(reply.error);
      }
      r := Ok(ConvertDiagnostics(reply.value, uri));
    }

    /** `close_document`: the entry goes whatever the bridge replies. */
    method CloseDocument(workspaceId: string, documentId: string, reply: Result<(), string>)
      returns (r: Result<(), string>)
      modifies this`documents, this`calls
      ensures documents == old(documents) - {(workspaceId, documentId)}
      ensures calls == old(calls) + [CloseCall(workspaceId, documentId)] && r == reply
    {
      documents := documents - {(workspaceId, documentId)};
      calls := calls + [CloseCall(workspaceId, documentId)];
      r := reply;
    }

    /** `request_completion`. */
    method RequestCompletion(workspaceId: string, documentId: string, line: int, character: int,
                             reply: Result<CompletionResponseData, string>)
      returns (r: Result<CompletionList, string>)
      modifies this`calls
      ensures calls == old(calls) + [CompletionCall(workspaceId, documentId, line, character)]
      ensures reply.Err? ==> r == Err(reply.error)
      ensures reply.Ok? ==> r == Ok(ConvertCompletionResponse(reply.value))
    {
      calls := calls + [CompletionCall(workspaceId, documentId, line, character)];
      if reply.Err? {
        return Err(reply.error);
      }
      r := Ok(ConvertCompletionResponse(reply.value));
    }

    /**
     * `poll_notification`: take notifications until one is worth
     * reporting.
     */
    method PollNotification() returns (r: Option<Notification>)
      modifies this`incoming
      ensures (r, incoming) == Poll(documents, old(incoming))
    {
      while incoming != []
        invariant Poll(documents, incoming) == Poll(documents, old(incoming))
        decreases |incoming|
      {
        var n := incoming[0];
        if !Dropped(documents, n) {
          incoming := incoming[1..];
          return Some(Reported(documents, n));
        }
        PollPastDropped(documents, incoming);
        incoming := incoming[1..];
      }
      r := None;
    }
  }
}
