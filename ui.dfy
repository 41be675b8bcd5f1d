/** The UI side of LV2Plugin: its table of ports, each holding the value the
    plugin sees and the value last sent to the UI, and the port events sent
    to the UI instance through suil_instance_port_event. A UI instance, a
    window and whether that window is visible are boolean state; the Qt
    window and the suil plumbing behind them are not modelled. */
module PluginUi {

  /** A port value (a float in the source); it is only copied and compared. */
  type Value(==)

  /** The only port type the code tells apart is the control port. */
  datatype PortType = Control | NonControl

  datatype Port = Port(kind: PortType, isInput: bool, value: Value, uiValue: Value, index: nat)

  /** The port protocol for plain float values, and sizeof(float). */
  const ProtocolFloat: nat := 0
  const FloatSize: nat := 4

  /** One call of suil_instance_port_event. */
  datatype PortEvent = PortEvent(portIndex: nat, bufferSize: nat, protocol: nat, value: Value)

  predicate IsControl(p: Port) {
    p.kind == Control
  }

  predicate IsOutputControl(p: Port) {
    p.kind == Control && !p.isInput
  }

  /** An output control port whose value the UI has not been sent yet. */
  predicate IsStale(p: Port) {
    IsOutputControl(p) && p.uiValue != p.value
  }

  /** The event that sends a port's current value to the UI. */
  function EventFor(p: Port): PortEvent {
    PortEvent(p.index, FloatSize, ProtocolFloat, p.value)
  }

  /** A port once the UI has been sent its value. */
  function Synced(p: Port): Port {
    p.(uiValue := p.value)
  }

  // ---------------------------------------------------------------------
  // What one pass over the port table does
  // ---------------------------------------------------------------------

  /** The port table after a pass that sends every port `sel` picks to the
      UI: those ports now record their value as sent, and nothing else
      changes, least of all any port's value. */
  function SyncWhere(ps: seq<Port>, sel: Port -> bool): (r: seq<Port>)
    ensures |r| == |ps|
    ensures forall i :: 0 <= i < |ps| ==>
              r[i].value == ps[i].value && r[i].kind == ps[i].kind
              && r[i].isInput == ps[i].isInput && r[i].index == ps[i].index
    ensures forall i :: 0 <= i < |ps| && sel(ps[i]) ==> r[i].uiValue == r[i].value
    ensures forall i :: 0 <= i < |ps| && !sel(ps[i]) ==> r[i] == ps[i]
  {
    seq(|ps|, i requires 0 <= i < |ps| => if sel(ps[i]) then Synced(ps[i]) else ps[i])
  }

  /** The events such a pass sends, in table order. */
  function EventsWhere(ps: seq<Port>, sel: Port -> bool): (r: seq<PortEvent>)
    ensures forall k :: 0 <= k < |r| ==> r[k].bufferSize == FloatSize && r[k].protocol == ProtocolFloat
  {
    if ps == [] then []
    else
      EventsWhere(ps[..|ps| - 1], sel)
      + (if sel(ps[|ps| - 1]) then [EventFor(ps[|ps| - 1])] else [])
  }

  /** The positions in the table of the ports `sel` picks, ascending: a
      reference description of which ports a pass sends, and in what order. */
  function Positions(ps: seq<Port>, sel: Port -> bool): (r: seq<nat>)
    ensures forall k :: 0 <= k < |r| ==> r[k] < |ps| && sel(ps[r[k]])
    ensures forall k, l :: 0 <= k < l < |r| ==> r[k] < r[l]
    ensures forall j :: 0 <= j < |ps| && sel(ps[j]) ==> j in r
  {
    if ps == [] then []
    else
      var init := ps[..|ps| - 1];
      assert forall j :: 0 <= j < |init| ==> init[j] == ps[j];
      Positions(init, sel) + (if sel(ps[|ps| - 1]) then [|ps| - 1] else [])
  }

  /** A pass sends exactly one event per picked port, in ascending table
      order, each carrying that port's index and current value. */
  lemma {:induction false} EventsAtPositions(ps: seq<Port>, sel: Port -> bool)
    ensures |EventsWhere(ps, sel)| == |Positions(ps, sel)|
    ensures forall k :: 0 <= k < |Positions(ps, sel)| ==>
              EventsWhere(ps, sel)[k] == EventFor(ps[Positions(ps, sel)[k]])
  {
    if ps != [] {
      var init, last := ps[..|ps| - 1], ps[|ps| - 1];
      EventsAtPositions(init, sel);
      var e, p := EventsWhere(init, sel), Positions(init, sel);
      var eTail := if sel(last) then [EventFor(last)] else [];
      var pTail := if sel(last) then [|ps| - 1] else [];
      assert EventsWhere(ps, sel) == e + eTail;
      assert Positions(ps, sel) == p + pTail;
      forall k | 0 <= k < |p|
        ensures (e + eTail)[k] == EventFor(ps[(p + pTail)[k]])
      {
        assert p[k] < |init| && init[p[k]] == ps[p[k]];
      }
    }
  }

  /** A pass sends nothing exactly when no port is picked. */
  lemma {:induction false} EventsWhereEmpty(ps: seq<Port>, sel: Port -> bool)
    ensures EventsWhere(ps, sel) == [] <==> forall i :: 0 <= i < |ps| ==> !sel(ps[i])
  {
    if ps != [] {
      var init := ps[..|ps| - 1];
      EventsWhereEmpty(init, sel);
      assert forall j :: 0 <= j < |init| ==> init[j] == ps[j];
    }
  }

  /** After notify_ui_output_control_ports every output control port shows
      the UI its current value, so notifying again, with no value changed in
      between, sends nothing and changes nothing. */
  lemma NotifyIdempotent(ps: seq<Port>)
    ensures forall i :: 0 <= i < |ps| && IsOutputControl(ps[i]) ==>
              SyncWhere(ps, IsStale)[i].uiValue == SyncWhere(ps, IsStale)[i].value
    ensures EventsWhere(SyncWhere(ps, IsStale), IsStale) == []
    ensures SyncWhere(SyncWhere(ps, IsStale), IsStale) == SyncWhere(ps, IsStale)
  {
    var r := SyncWhere(ps, IsStale);
    assert forall i :: 0 <= i < |r| ==> !IsStale(r[i]);
    EventsWhereEmpty(r, IsStale);
  }

  /** After prepare_ui's pass every control port, input or output, shows the
      UI its value, so the first notify_ui_output_control_ports that follows
      sends nothing. */
  lemma PrepareLeavesNothingStale(ps: seq<Port>)
    ensures forall i :: 0 <= i < |ps| && IsControl(ps[i]) ==>
              SyncWhere(ps, IsControl)[i].uiValue == SyncWhere(ps, IsControl)[i].value
    ensures EventsWhere(SyncWhere(ps, IsControl), IsStale) == []
  {
    var r := SyncWhere(ps, IsControl);
    assert forall i :: 0 <= i < |r| ==> !IsStale(r[i]);
    EventsWhereEmpty(r, IsStale);
  }

  // ---------------------------------------------------------------------
  // The plugin's UI state
  // ---------------------------------------------------------------------

  class LV2Plugin {
    /** ports[0 .. ports_count). */
    const ports: array<Port>
    var hasPluginInstance: bool
    var hasPluginUri: bool
    var hasUiInstance: bool
    var hasUiWindow: bool
    /** What the window's isVisible() reports, when there is a window. */
    var windowVisible: bool
    /** Every suil_instance_port_event call, in order. */
    var events: seq<PortEvent>

    /** A plugin with the given port table and no UI yet. */
    constructor (table: seq<Port>, hasPluginInstance: bool, hasPluginUri: bool)
      ensures fresh(ports) && ports[..] == table
      ensures this.hasPluginInstance == hasPluginInstance && this.hasPluginUri == hasPluginUri
      ensures !hasUiInstance && !hasUiWindow && !windowVisible && events == []
    {
      ports := new Port[|table|](i requires 0 <= i < |table| => table[i]);
      this.hasPluginInstance := hasPluginInstance;
      this.hasPluginUri := hasPluginUri;
      hasUiInstance, hasUiWindow, windowVisible := false, false, false;
      events := [];
    }

    /** is_ui_visible: never visible without a window. */
    function IsUiVisible(): (visible: bool)
      reads this
      ensures !hasUiWindow ==> !visible
      ensures hasUiWindow ==> visible == windowVisible
    {
      hasUiWindow && windowVisible
    }

    /** suil_write_from_ui: a float-protocol, float-sized write sets the
        port's value; any other protocol or size is ignored. The port index
        is not checked, so a valid write must name a port of the table. */
    method WriteFromUi(portIndex: nat, bufferSize: nat, protocol: nat, buffer: Value)
      requires protocol == ProtocolFloat && bufferSize == FloatSize ==> portIndex < ports.Length
      modifies ports
      ensures protocol != ProtocolFloat || bufferSize != FloatSize ==> ports[..] == old(ports[..])
      ensures protocol == ProtocolFloat && bufferSize == FloatSize ==>
                ports[..] == old(ports[..])[portIndex := old(ports[portIndex]).(value := buffer)]
      ensures forall i :: 0 <= i < ports.Length ==> ports[i].uiValue == old(ports[i].uiValue)
    {
      if protocol != ProtocolFloat || bufferSize != FloatSize {
        return;
      }
      ports[portIndex] := ports[portIndex].(value := buffer);
    }

    /** prepare_ui: gives up without a plugin instance or URI, or when a UI
        instance exists already; otherwise creates the UI instance (and a
        hidden window when there is none) and sends every control port's
        value to the UI, in table order, recording each as sent. */
    method PrepareUi()
      modifies this, ports
      ensures hasPluginInstance == old(hasPluginInstance) && hasPluginUri == old(hasPluginUri)
      ensures old(!hasPluginInstance || !hasPluginUri || hasUiInstance) ==>
                && hasUiInstance == old(hasUiInstance) && hasUiWindow == old(hasUiWindow)
                && windowVisible == old(windowVisible)
                && ports[..] == old(ports[..]) && events == old(events)
      ensures old(hasPluginInstance && hasPluginUri && !hasUiInstance) ==>
                && hasUiInstance && hasUiWindow
                && windowVisible == old(hasUiWindow && windowVisible)
                && ports[..] == SyncWhere(old(ports[..]), IsControl)
                && events == old(events) + EventsWhere(old(ports[..]), IsControl)
    {
      if !hasPluginInstance || !hasPluginUri {
        return;
      }
      if hasUiInstance {
        return;
      }
      hasUiInstance := true;
      if !hasUiWindow {
        hasUiWindow, windowVisible := true, false;
      }
      ghost var ps := ports[..];
      ghost var visible := windowVisible;
      var i := 0;
      while i < ports.Length
        invariant 0 <= i <= ports.Length
        invariant forall k :: 0 <= k < i ==> ports[k] == if IsControl(ps[k]) then Synced(ps[k]) else ps[k]
        invariant forall k :: i <= k < ports.Length ==> ports[k] == ps[k]
        invariant events == old(events) + EventsWhere(ps[..i], IsControl)
        invariant hasPluginInstance == old(hasPluginInstance) && hasPluginUri == old(hasPluginUri)
        invariant hasUiInstance && hasUiWindow && windowVisible == visible
      {
        assert ps[..i + 1][..i] == ps[..i];
        if ports[i].kind == Control {
          events := events + [EventFor(ports[i])];
          ports[i] := ports[i].(uiValue := ports[i].value);
        }
        i := i + 1;
      }
      assert ps[..i] == ps;
      assert ports[..] == SyncWhere(ps, IsControl);
    }

    /** cleanup_ui: hides a visible window that has a UI instance, and
        ends with no UI instance; the window and the port table stay. */
    method CleanupUi()
      modifies this`hasUiInstance, this`windowVisible
      ensures !hasUiInstance
      ensures windowVisible == (old(windowVisible) && !(old(hasUiWindow) && old(hasUiInstance)))
      ensures old(hasUiInstance) ==> !IsUiVisible()
    {
      if IsUiVisible() {
        if hasUiWindow && hasUiInstance {
          windowVisible := false;
        }
      }
      if hasUiInstance {
        hasUiInstance := false;
      }
    }

    /** notify_ui_output_control_ports: with a UI instance and a visible
        window, sends the UI every output control port whose value differs
        from the one last sent, in table order, and records it as sent;
        otherwise does nothing. */
    method NotifyUiOutputControlPorts()
      modifies ports, this`events
      ensures old(!hasUiInstance || !hasUiWindow || !IsUiVisible()) ==>
                ports[..] == old(ports[..]) && events == old(events)
      ensures old(hasUiInstance && hasUiWindow && IsUiVisible()) ==>
                && ports[..] == SyncWhere(old(ports[..]), IsStale)
                && events == old(events) + EventsWhere(old(ports[..]), IsStale)
    {
      if !hasUiInstance || !hasUiWindow || !IsUiVisible() {
        return;
      }
      ghost var ps := ports[..];
      var i := 0;
      while i < ports.Length
        invariant 0 <= i <= ports.Length
        invariant forall k :: 0 <= k < i ==> ports[k] == if IsStale(ps[k]) then Synced(ps[k]) else ps[k]
        invariant forall k :: i <= k < ports.Length ==> ports[k] == ps[k]
        invariant events == old(events) + EventsWhere(ps[..i], IsStale)
      {
        assert ps[..i + 1][..i] == ps[..i];
        if ports[i].kind != Control || ports[i].isInput {
          i := i + 1;
          continue;
        }
        if ports[i].uiValue == ports[i].value {
          i := i + 1;
          continue;
        }
        events := events + [EventFor(ports[i])];
        ports[i] := ports[i].(uiValue := ports[i].value);
        i := i + 1;
      }
      assert ps[..i] == ps;
      assert ports[..] == SyncWhere(ps, IsStale);
    }
  }
}
