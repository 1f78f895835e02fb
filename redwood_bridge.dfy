// The typed Redwood frame bridge. A frame is a string table plus a list of
// change records; each record names its kind and may carry a payload for
// that kind. The bridge turns every record whose payload is present into
// one preview command and sends it either to the preview's channel or to a
// panel's channel.
//
// The two process-wide sender slots become one `Bridge` object. A channel
// is an id, and sending appends a delivery to the bridge's `sent` log.
module RedwoodBridge {
  import opened Wrappers

  // ------------------------------------------------------------ widths

  const U32Limit: int := 0x1_0000_0000
  const U64Limit: int := 0x1_0000_0000_0000_0000

  type U32 = x: int | 0 <= x < U32Limit
  type U64 = x: int | 0 <= x < U64Limit

  /** `as i32` on a `u32`: the same 32 bits read as two's complement. */
  function AsI32(x: U32): (r: int)
    ensures -0x8000_0000 <= r < 0x8000_0000
    ensures (r - x) % U32Limit == 0
    ensures r < 0 <==> x >= 0x8000_0000
  {
    if x < 0x8000_0000 then x else x - U32Limit
  }

  /** `as i64` on a `u64`: the same 64 bits read as two's complement. */
  function AsI64(x: U64): (r: int)
    ensures -0x8000_0000_0000_0000 <= r < 0x8000_0000_0000_0000
    ensures (r - x) % U64Limit == 0
    ensures r < 0 <==> x >= 0x8000_0000_0000_0000
  {
    if x < 0x8000_0000_0000_0000 then x else x - U64Limit
  }

  /** Distinct frame ids stay distinct handles. */
  lemma AsI64Injective(a: U64, b: U64)
    requires AsI64(a) == AsI64(b)
    ensures a == b
  {
    if a < 0x8000_0000_0000_0000 {
      assert AsI64(b) >= 0;
    } else {
      assert AsI64(b) < 0;
    }
  }

  // ------------------------------------------------------------ commands

  /** The widget kinds a frame creates. */
  datatype RedwoodWidget = WidgetText | WidgetButton | WidgetImage | WidgetRow | WidgetColumn

  /** The node kinds the preview draws. */
  datatype NodeKind = Text | Button | Image | Row | Column

  function WidgetOf(k: NodeKind): RedwoodWidget {
    match k
    case Text => WidgetText
    case Button => WidgetButton
    case Image => WidgetImage
    case Row => WidgetRow
    case Column => WidgetColumn
  }

  /** `NodeKind::from`: the same variant, so converting back gives the widget. */
  function KindOf(w: RedwoodWidget): (k: NodeKind)
    ensures WidgetOf(k) == w
  {
    match w
    case WidgetText => Text
    case WidgetButton => Button
    case WidgetImage => Image
    case WidgetRow => Row
    case WidgetColumn => Column
  }

  /** A handle is a node id as `i64`. */
  type Handle = int

  /** What the preview applies to its tree. */
  datatype Cmd =
    | Create(handle: Handle, kind: NodeKind)
    | Destroy(handle: Handle)
    | AppendChild(parent: Handle, child: Handle)
    | InsertChild(parent: Handle, index: int, child: Handle)
    | RemoveChild(parent: Handle, child: Handle)
    | SetText(handle: Handle, text: string)
    | SetButtonText(handle: Handle, text: string)
    | SetButtonEnabled(handle: Handle, enabled: bool)
    | SetImageUrl(handle: Handle, url: string)
    | SetImageFit(handle: Handle, fit: int)
    | SetImageRadius(handle: Handle, radius: real)

  // ------------------------------------------------------------ frames

  datatype CreatePayload = CreatePayload(id: U64, widget: RedwoodWidget)
  datatype DestroyPayload = DestroyPayload(id: U64)
  datatype LinkPayload = LinkPayload(parent: U64, child: U64)
  datatype InsertPayload = InsertPayload(parent: U64, index: U32, child: U64)
  /** A string-valued setter: the string is an index into the frame's table. */
  datatype StringPayload = StringPayload(id: U64, str: U32)
  datatype EnabledPayload = EnabledPayload(id: U64, enabled: bool)

  datatype ChangeKind =
    | CreateKind | DestroyKind | AppendChildKind | InsertChildKind
    | RemoveChildKind | SetTextKind | SetEnabledKind | SetImageUrlKind

  /** One change record: its kind and an optional payload per kind. */
  datatype ChangeRec = ChangeRec(
    kind: ChangeKind,
    create: Option<CreatePayload>,
    destroy: Option<DestroyPayload>,
    appendChild: Option<LinkPayload>,
    insertChild: Option<InsertPayload>,
    removeChild: Option<LinkPayload>,
    setText: Option<StringPayload>,
    setEnabled: Option<EnabledPayload>,
    setImageUrl: Option<StringPayload>)

  datatype FrameRec = FrameRec(strings: seq<string>, changes: seq<ChangeRec>)

  /** Whether the record carries the payload its kind reads. */
  predicate HasPayload(ch: ChangeRec) {
    match ch.kind
    case CreateKind => ch.create.Some?
    case DestroyKind => ch.destroy.Some?
    case AppendChildKind => ch.appendChild.Some?
    case InsertChildKind => ch.insertChild.Some?
    case RemoveChildKind => ch.removeChild.Some?
    case SetTextKind => ch.setText.Some?
    case SetEnabledKind => ch.setEnabled.Some?
    case SetImageUrlKind => ch.setImageUrl.Some?
  }

  /** The command variant each change kind becomes. */
  predicate Translates(kind: ChangeKind, cmd: Cmd) {
    match kind
    case CreateKind => cmd.Create?
    case DestroyKind => cmd.Destroy?
    case AppendChildKind => cmd.AppendChild?
    case InsertChildKind => cmd.InsertChild?
    case RemoveChildKind => cmd.RemoveChild?
    case SetTextKind => cmd.SetText?
    case SetEnabledKind => cmd.SetButtonEnabled?
    case SetImageUrlKind => cmd.SetImageUrl?
  }

  /** The string at `id` in the frame's table, or "" past its end. */
  function StrOf(strings: seq<string>, id: U32): (r: string)
    ensures id < |strings| ==> r == strings[id]
    ensures id >= |strings| ==> r == ""
  {
    if id < |strings| then strings[id] else ""
  }

  /** The command for one record; none when its kind's payload is missing. */
  function Translate(strings: seq<string>, ch: ChangeRec): (r: Option<Cmd>)
    ensures r.Some? <==> HasPayload(ch)
    ensures r.Some? ==> Translates(ch.kind, r.value)
  {
    match ch.kind
    case CreateKind =>
      if ch.create.None? then None
      else Some(Create(AsI64(ch.create.value.id), KindOf(ch.create.value.widget)))
    case DestroyKind =>
      if ch.destroy.None? then None else Some(Destroy(AsI64(ch.destroy.value.id)))
    case AppendChildKind =>
      if ch.appendChild.None? then None
      else Some(AppendChild(AsI64(ch.appendChild.value.parent), AsI64(ch.appendChild.value.child)))
    case InsertChildKind =>
      if ch.insertChild.None? then None
      else
        var p := ch.insertChild.value;
        Some(InsertChild(AsI64(p.parent), AsI32(p.index), AsI64(p.child)))
    case RemoveChildKind =>
      if ch.removeChild.None? then None
      else Some(RemoveChild(AsI64(ch.removeChild.value.parent), AsI64(ch.removeChild.value.child)))
    case SetTextKind =>
      if ch.setText.None? then None
      else Some(SetText(AsI64(ch.setText.value.id), StrOf(strings, ch.setText.value.str)))
    case SetEnabledKind =>
      if ch.setEnabled.None? then None
      else Some(SetButtonEnabled(AsI64(ch.setEnabled.value.id), ch.setEnabled.value.enabled))
    case SetImageUrlKind =>
      if ch.setImageUrl.None? then None
      else Some(SetImageUrl(AsI64(ch.setImageUrl.value.id), StrOf(strings, ch.setImageUrl.value.str)))
  }

  /** A set-enabled record drives the button's enabled flag with its own value. */
  lemma SetEnabledDrivesButton(strings: seq<string>, ch: ChangeRec)
    requires ch.kind == SetEnabledKind && ch.setEnabled.Some?
    ensures var r := Translate(strings, ch);
      r.Some? && r.value.SetButtonEnabled? && r.value.enabled == ch.setEnabled.value.enabled
  {
  }

  /** The number of records that carry their payload. */
  function PresentCount(changes: seq<ChangeRec>): nat {
    if changes == [] then 0
    else (if HasPayload(changes[0]) then 1 else 0) + PresentCount(changes[1..])
  }

  /**
   * The commands a frame produces, in record order: one per record that
   * carries its payload.
   */
  function Commands(strings: seq<string>, changes: seq<ChangeRec>): (r: seq<Cmd>)
    ensures |r| == PresentCount(changes) <= |changes|
  {
    if changes == [] then []
    else
      var head := Translate(strings, changes[0]);
      (if head.Some? then [head.value] else []) + Commands(strings, changes[1..])
  }

  /** Every command comes from some record of the frame. */
  lemma {:induction false} CommandsFromRecords(strings: seq<string>, changes: seq<ChangeRec>, c: Cmd)
    requires c in Commands(strings, changes)
    ensures exists i :: 0 <= i < |changes| && Translate(strings, changes[i]) == Some(c)
  {
    var head := Translate(strings, changes[0]);
    if !(head.Some? && head.value == c) {
      CommandsFromRecords(strings, changes[1..], c);
      var j :| 0 <= j < |changes[1..]| && Translate(strings, changes[1..][j]) == Some(c);
      assert changes[j + 1] == changes[1..][j];
    }
  }

  /**
   * Translating a concatenation translates each part, so commands keep
   * the frame's order.
   */
  lemma {:induction false} CommandsAppend(strings: seq<string>, a: seq<ChangeRec>, b: seq<ChangeRec>)
    ensures Commands(strings, a + b) == Commands(strings, a) + Commands(strings, b)
  {
    if a == [] {
      assert a + b == b;
    } else {
      assert (a + b)[0] == a[0];
      assert (a + b)[1..] == a[1..] + b;
      CommandsAppend(strings, a[1..], b);
    }
  }

  // ------------------------------------------------------------ routing

  /** One command handed to one channel. */
  datatype Delivery = Delivery(channel: int, cmd: Cmd)

  /** Each command sent to `target` in order, or nothing when there is none. */
  function Deliveries(target: Option<int>, cmds: seq<Cmd>): (r: seq<Delivery>)
    ensures target.None? ==> r == []
    ensures target.Some? ==> |r| == |cmds| && forall i | 0 <= i < |r| :: r[i] == Delivery(target.value, cmds[i])
  {
    if target.None? || cmds == [] then []
    else [Delivery(target.value, cmds[0])] + Deliveries(target, cmds[1..])
  }

  function Payloads(ds: seq<Delivery>): (r: seq<Cmd>)
    ensures |r| == |ds| && forall i | 0 <= i < |ds| :: r[i] == ds[i].cmd
  {
    if ds == [] then [] else [ds[0].cmd] + Payloads(ds[1..])
  }

  /** Whichever channel is chosen, it receives exactly the commands, in order. */
  lemma DeliveredCommands(target: Option<int>, cmds: seq<Cmd>)
    requires target.Some?
    ensures Payloads(Deliveries(target, cmds)) == cmds
  {
  }

  lemma DeliveriesAppend(target: Option<int>, a: seq<Cmd>, b: seq<Cmd>)
    ensures Deliveries(target, a + b) == Deliveries(target, a) + Deliveries(target, b)
  {
  }

  /** The sender slots: the preview's channel and one channel per panel. */
  class Bridge {
    var uiSender: Option<int>
    var panelSenders: map<U64, int>
    var sent: seq<Delivery>

    constructor()
      ensures uiSender == None && panelSenders == map[] && sent == []
    {
      uiSender := None;
      panelSenders := map[];
      sent := [];
    }

    /**
     * The channel a command for `panel` goes to: the panel's own, else the
     * preview's, else none.
     */
    function Target(panel: U64): (r: Option<int>)
      reads this
      ensures panel in panelSenders ==> r == Some(panelSenders[panel])
      ensures panel !in panelSenders ==> r == uiSender
    {
      if panel in panelSenders then Some(panelSenders[panel]) else uiSender
    }

    method RegisterUiSender(tx: int)
      modifies this
      ensures uiSender == Some(tx)
      ensures panelSenders == old(panelSenders) && sent == old(sent)
    {
      uiSender := Some(tx);
    }

    method RegisterPanelSender(panel: U64, tx: int)
      modifies this
      ensures panelSenders == old(panelSenders)[panel := tx]
      ensures uiSender == old(uiSender) && sent == old(sent)
    {
      panelSenders := panelSenders[panel := tx];
    }

    method UnregisterPanelSender(panel: U64)
      modifies this
      ensures panelSenders == old(panelSenders) - {panel}
      ensures uiSender == old(uiSender) && sent == old(sent)
    {
      panelSenders := panelSenders - {panel};
    }

    /** `emit`: to the preview's channel, dropped when none is registered. */
    method Emit(cmd: Cmd)
      modifies this`sent
      ensures sent == old(sent) + Deliveries(uiSender, [cmd])
    {
      if uiSender.Some? {
        sent := sent + [Delivery(uiSender.value, cmd)];
      }
    }

    /** `emit_to`: to the panel's channel, falling back to `emit`. */
    method EmitTo(panel: U64, cmd: Cmd)
      modifies this`sent
      ensures sent == old(sent) + Deliveries(Target(panel), [cmd])
    {
      if panel in panelSenders {
        sent := sent + [Delivery(panelSenders[panel], cmd)];
        return;
      }
      Emit(cmd);
    }

    /**
     * `redwood_apply`: every present record's command, in order, to the
     * preview's channel.
     */
    method Apply(viewId: U64, frame: FrameRec)
      modifies this`sent
      ensures sent == old(sent) + Deliveries(uiSender, Commands(frame.strings, frame.changes))
    {
      var i := 0;
      while i < |frame.changes|
        invariant i <= |frame.changes|
        invariant sent == old(sent) + Deliveries(uiSender, Commands(frame.strings, frame.changes[..i]))
      {
        var cmd := Translate(frame.strings, frame.changes[i]);
        Advance(frame, i, uiSender, old(sent));
        if cmd.Some? {
          Emit(cmd.value);
        }
        i := i + 1;
      }
      assert frame.changes[..i] == frame.changes;
    }

    /**
     * `redwood_apply_to`: the same commands, to the panel's channel or
     * the fallback.
     */
    method ApplyTo(panel: U64, frame: FrameRec)
      modifies this`sent
      ensures sent == old(sent) + Deliveries(Target(panel), Commands(frame.strings, frame.changes))
    {
      var i := 0;
      while i < |frame.changes|
        invariant i <= |frame.changes|
        invariant sent == old(sent) + Deliveries(Target(panel), Commands(frame.strings, frame.changes[..i]))
      {
        var cmd := Translate(frame.strings, frame.changes[i]);
        Advance(frame, i, Target(panel), old(sent));
        if cmd.Some? {
          EmitTo(panel, cmd.value);
        }
        i := i + 1;
      }
      assert frame.changes[..i] == frame.changes;
    }
  }

  /** One more record extends the deliveries by that record's command, if any. */
  lemma Advance(frame: FrameRec, i: nat, target: Option<int>, sent0: seq<Delivery>)
    requires i < |frame.changes|
    ensures var t := Translate(frame.strings, frame.changes[i]);
      var before := sent0 + Deliveries(target, Commands(frame.strings, frame.changes[..i]));
      var after := sent0 + Deliveries(target, Commands(frame.strings, frame.changes[..i + 1]));
      && (t.None? ==> after == before)
      && (t.Some? ==> after == before + Deliveries(target, [t.value]))
  {
    var s := frame.strings;
    var t := Translate(s, frame.changes[i]);
    assert frame.changes[..i + 1] == frame.changes[..i] + [frame.changes[i]];
    CommandsAppend(s, frame.changes[..i], [frame.changes[i]]);
    assert [frame.changes[i]][1..] == [];
    var a := Commands(s, frame.changes[..i]);
    var b := Commands(s, [frame.changes[i]]);
    DeliveriesAppend(target, a, b);
    assert sent0 + (Deliveries(target, a) + Deliveries(target, b)) == sent0 + Deliveries(target, a) + Deliveries(target, b);
  }

  /** Both entry points hand the chosen channel the same command sequence. */
  lemma ApplyAgreesWithApplyTo(frame: FrameRec, ui: Option<int>, panel: Option<int>)
    requires ui.Some? && panel.Some?
    ensures Payloads(Deliveries(ui, Commands(frame.strings, frame.changes)))
         == Payloads(Deliveries(panel, Commands(frame.strings, frame.changes)))
  {
    DeliveredCommands(ui, Commands(frame.strings, frame.changes));
    DeliveredCommands(panel, Commands(frame.strings, frame.changes));
  }
}
