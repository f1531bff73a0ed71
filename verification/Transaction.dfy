/** The `transaction` decorator and `delete_vlan`, the method it wraps: the status a VLAN ends with. */
module Transaction {
  import opened Prelude
  import opened Rows
  import opened Schema
  import Db = NetforceDb

  /** The part of the method name before the underscore. */
  datatype Action = CreateAction | UpdateAction | DeleteAction | OtherAction

  /** What the decorator sees of a resource. */
  datatype ResourceRow = ResourceRow(status: Status, description: Note)

  /** What the wrapped method did: returned a payload, raised DeviceConfigPushFailure around an inner
      exception, or raised anything else. */
  datatype Wrapped =
    | Payload(id: Id)
    | PushFailure(id: Id, message: string)
    | OtherException(message: string)

  datatype Answer =
    | View(row: ResourceRow)
    | Nothing
    | InnerException(message: string)
    | Propagated(message: string)
    | RowNotFound

  type ResourceRows = map<Id, ResourceRow>

  /** The description of a failed push. */
  function FailureNote(message: string): Note {
    if message == "" then ErrorInPushing else Message(message)
  }

  // ----- the decorator on the VLAN table

  /** The tables and the answer after the wrapper's part. */
  function ConcludedTables(t: Tables, action: Action, wrapped: Wrapped): (Tables, Answer) {
    match wrapped
    case OtherException(message) => (t, Propagated(message))
    case Payload(id) =>
      if action == CreateAction || action == UpdateAction then
        match Db.UpdateVlan(t, id, Db.StatusAnd(Active, ChangesCompleted))
        case Ok(t') => (t', View(ResourceRow(Active, ChangesCompleted)))
        case Raised(_) => (t, RowNotFound)
      else if action == DeleteAction then
        match Db.DeleteVlan(t, id) case Ok(t') => (t', Nothing) case Raised(_) => (t, RowNotFound)
      else (t, Nothing)
    case PushFailure(id, message) =>
      if action == DeleteAction || action == UpdateAction then
        match Db.UpdateVlan(t, id, Db.StatusAnd(Status.Error, FailureNote(message)))
        case Ok(t') => (t', InnerException(message))
        case Raised(_) => (t, RowNotFound)
      else if action == CreateAction then
        match Db.DeleteVlan(t, id) case Ok(t') => (t', InnerException(message)) case Raised(_) => (t, RowNotFound)
      else (t, Nothing)
  }

  class VlanTransaction {
    const session: Db.Session

    constructor (session: Db.Session)
      ensures this.session == session
    {
      this.session := session;
    }

    /** The wrapper's part, after the wrapped method has left the tables as they are. */
    method Conclude(action: Action, wrapped: Wrapped) returns (answer: Answer)
      modifies session
      ensures (session.View(), answer) == ConcludedTables(old(session.View()), action, wrapped)
    {
      match wrapped {
        case OtherException(message) =>
          return Propagated(message);
        case Payload(id) =>
          if action == CreateAction || action == UpdateAction {
            var missing := session.SetVlan(id, Db.StatusAnd(Active, ChangesCompleted));
            return if missing.None? then View(ResourceRow(Active, ChangesCompleted)) else RowNotFound;
          } else if action == DeleteAction {
            var missing := session.RemoveVlan(id);
            return if missing.None? then Nothing else RowNotFound;
          }
          return Nothing;
        case PushFailure(id, message) =>
          if action == DeleteAction || action == UpdateAction {
            var missing := session.SetVlan(id, Db.StatusAnd(Status.Error, FailureNote(message)));
            return if missing.None? then InnerException(message) else RowNotFound;
          } else if action == CreateAction {
            var missing := session.RemoveVlan(id);
            return if missing.None? then InnerException(message) else RowNotFound;
          }
          return Nothing;
      }
    }

    /** The body of `delete_vlan`: the VLAN is marked, then taken off the devices. */
    method MarkAndUnconfigure(id: Id, deviceError: Option<string>) returns (wrapped: Wrapped)
      modifies session
      ensures (session.View(), wrapped) == Marked(old(session.View()), id, deviceError)
    {
      var missing := session.SetVlan(id, Db.OnlyStatus(PendingDelete));
      if missing.Some? {
        return OtherException("");
      }
      return if deviceError.Some? then PushFailure(id, deviceError.value) else Payload(id);
    }

    /** `delete_vlan` under the decorator: whatever happens on the device, the VLAN does not stay in
        PENDING_DELETE. It is gone with its associations, or marked ERROR with everything else as before, or
        did not exist. */
    method DeleteVlan(id: Id, deviceError: Option<string>) returns (answer: Answer)
      modifies session
      ensures answer.Propagated? <==> !HasVlan(old(session.View()), id)
      ensures deviceError.Some? && !answer.Propagated? ==>
                answer == InnerException(deviceError.value)
                && Db.UpdateVlan(old(session.View()), id, Db.StatusAnd(Status.Error, FailureNote(deviceError.value)))
                   == Db.Outcome.Ok(session.View())
      ensures deviceError.None? && !answer.Propagated? ==>
                answer == Nothing && Db.DeleteVlan(old(session.View()), id) == Db.Outcome.Ok(session.View())
      ensures answer.Propagated? ==> session.View() == old(session.View())
    {
      ghost var t := session.View();
      var wrapped := MarkAndUnconfigure(id, deviceError);
      if HasVlan(t, id) {
        MarkedStillThere(t, id);
        PendingLeavesNoTrace(t, id, if deviceError.Some? then deviceError.value else "");
      }
      answer := Conclude(DeleteAction, wrapped);
    }
  }

  function Marked(t: Tables, id: Id, deviceError: Option<string>): (Tables, Wrapped) {
    match Db.UpdateVlan(t, id, Db.OnlyStatus(PendingDelete))
    case Raised(_) => (t, OtherException(""))
    case Ok(t') => (t', if deviceError.Some? then PushFailure(id, deviceError.value) else Payload(id))
  }

  /** The body leaves the VLAN with nothing but its status changed, and ends by its id or the device's failure. */
  lemma MarkedExactly(t: Tables, id: Id, deviceError: Option<string>)
    requires HasVlan(t, id)
    ensures var (t', wrapped) := Marked(t, id, deviceError);
            && wrapped == (if deviceError.Some? then PushFailure(id, deviceError.value) else Payload(id))
            && t' == t.(vlans := t'.vlans) && |t'.vlans| == |t.vlans|
            && forall i | 0 <= i < |t.vlans| ::
                 t'.vlans[i] == t.vlans[i].(status := if t.vlans[i].id == id then PendingDelete else t.vlans[i].status)
  {
  }

  lemma MarkedStillThere(t: Tables, id: Id)
    requires HasVlan(t, id)
    ensures HasVlan(Db.UpdateVlan(t, id, Db.OnlyStatus(PendingDelete)).value, id)
  {
    var t' := Db.UpdateVlan(t, id, Db.OnlyStatus(PendingDelete)).value;
    var i :| 0 <= i < |t.vlans| && t.vlans[i].id == id;
    assert t'.vlans[i] in t'.vlans && t'.vlans[i].id == id;
  }

  /** The intermediate status does not show in either final state. */
  lemma PendingLeavesNoTrace(t: Tables, id: Id, message: string)
    requires HasVlan(t, id) && HasVlan(Db.UpdateVlan(t, id, Db.OnlyStatus(PendingDelete)).value, id)
    ensures var pending, failed := Db.UpdateVlan(t, id, Db.OnlyStatus(PendingDelete)).value,
                                   Db.StatusAnd(Status.Error, FailureNote(message));
            Db.DeleteVlan(pending, id) == Db.DeleteVlan(t, id)
                && Db.UpdateVlan(pending, id, failed) == Db.UpdateVlan(t, id, failed)
  {
    var mark, failed := Db.OnlyStatus(PendingDelete), Db.StatusAnd(Status.Error, FailureNote(message));
    StatusIsNotFiltered(t.vlans, id, mark);
    assert Db.WithPatch(Db.WithPatch(t.vlans, id, mark), id, failed) == Db.WithPatch(t.vlans, id, failed);
  }

  lemma {:induction false} StatusIsNotFiltered(vlans: seq<VlanRow>, id: Id, patch: Db.VlanPatch)
    ensures Filter(Db.WithPatch(vlans, id, patch), OtherVlan(id)) == Filter(vlans, OtherVlan(id))
  {
    if vlans != [] {
      var n := |vlans| - 1;
      StatusIsNotFiltered(vlans[..n], id, patch);
      assert Db.WithPatch(vlans, id, patch)[..n] == Db.WithPatch(vlans[..n], id, patch);
    }
  }

  // ----- the status machine, for any resource

  /** The status the resource ends with, None for a deleted row. */
  function FinalStatus(action: Action, wrapped: Wrapped): Option<Status>
    requires !wrapped.OtherException? && action != OtherAction
  {
    match action
    case CreateAction => if wrapped.Payload? then Some(Active) else None
    case UpdateAction => Some(if wrapped.Payload? then Active else Status.Error)
    case _ => if wrapped.Payload? then None else Some(Status.Error)
  }

  function Concluded(rows: ResourceRows, action: Action, wrapped: Wrapped): (ResourceRows, Answer) {
    if wrapped.OtherException? then (rows, Propagated(wrapped.message))
    else if action == OtherAction then (rows, Nothing)
    else if wrapped.id !in rows then (rows, RowNotFound)
    else
      var row := ResourceRow(if wrapped.Payload? then Active else Status.Error,
                             if wrapped.Payload? then ChangesCompleted else FailureNote(wrapped.message));
      (if FinalStatus(action, wrapped).None? then rows - {wrapped.id} else rows[wrapped.id := row],
       if wrapped.PushFailure? then InnerException(wrapped.message)
       else if action == DeleteAction then Nothing
       else View(row))
  }

  function VlanIds(t: Tables): set<Id> {
    set v | v in t.vlans :: v.id
  }

  /** The VLAN table as the decorator sees it. */
  function VlanRows(t: Tables): ResourceRows {
    map id | id in VlanIds(t) && FindVlan(t.vlans, id).Some? ::
      ResourceRow(FindVlan(t.vlans, id).value.status, FindVlan(t.vlans, id).value.description)
  }

  lemma UniqueVlan(t: Tables, v: VlanRow)
    requires Db.Keyed(t) && v in t.vlans
    ensures FindVlan(t.vlans, v.id) == Some(v) && v.id in VlanRows(t)
    ensures VlanRows(t)[v.id] == ResourceRow(v.status, v.description)
  {
  }

  lemma RowAfterUpdate(t: Tables, t': Tables, id: Id, patch: Db.VlanPatch, k: Id)
    requires Db.Keyed(t) && Db.Keyed(t') && t'.vlans == Db.WithPatch(t.vlans, id, patch) && k in VlanIds(t)
    requires patch.status.Some? && patch.description.Some?
    ensures k in VlanRows(t) && k in VlanRows(t')
    ensures VlanRows(t')[k] == if k == id then ResourceRow(patch.status.value, patch.description.value)
            else VlanRows(t)[k]
  {
    var i :| 0 <= i < |t.vlans| && t.vlans[i].id == k;
    assert t.vlans[i] in t.vlans && t'.vlans[i] in t'.vlans;
    UniqueVlan(t, t.vlans[i]);
    UniqueVlan(t', t'.vlans[i]);
  }

  lemma RowsUpdated(rows: ResourceRows, rows': ResourceRows, id: Id, row: ResourceRow)
    requires rows'.Keys == rows.Keys && id in rows
    requires forall k | k in rows :: rows'[k] == if k == id then row else rows[k]
    ensures rows' == rows[id := row]
  {
  }

  lemma RowsAfterUpdate(t: Tables, id: Id, status: Status, note: Note)
    requires Db.Keyed(t) && HasVlan(t, id)
    ensures VlanRows(Db.UpdateVlan(t, id, Db.StatusAnd(status, note)).value)
            == VlanRows(t)[id := ResourceRow(status, note)]
  {
    var patch := Db.StatusAnd(status, note);
    var t' := Db.UpdateVlan(t, id, patch).value;
    PatchKeepsKeys(t, id, patch);
    RowsAfterPatch(t, t', id, patch);
  }

  lemma RowsAfterPatch(t: Tables, t': Tables, id: Id, patch: Db.VlanPatch)
    requires Db.Keyed(t) && Db.Keyed(t') && t'.vlans == Db.WithPatch(t.vlans, id, patch) && id in VlanIds(t)
    requires patch.status.Some? && patch.description.Some?
    ensures VlanRows(t') == VlanRows(t)[id := ResourceRow(patch.status.value, patch.description.value)]
  {
    SameIds(t, t');
    KeysOfRows(t);
    KeysOfRows(t');
    var row := ResourceRow(patch.status.value, patch.description.value);
    forall k | k in VlanRows(t)
      ensures VlanRows(t')[k] == if k == id then row else VlanRows(t)[k]
    {
      RowAfterUpdate(t, t', id, patch, k);
    }
    RowsUpdated(VlanRows(t), VlanRows(t'), id, row);
  }

  lemma KeysOfRows(t: Tables)
    ensures VlanRows(t).Keys == VlanIds(t)
  {
  }

  lemma SameIds(t: Tables, t': Tables)
    requires |t.vlans| == |t'.vlans| && forall i | 0 <= i < |t.vlans| :: t'.vlans[i].id == t.vlans[i].id
    ensures VlanIds(t) == VlanIds(t')
  {
    forall id
      ensures id in VlanIds(t) <==> id in VlanIds(t')
    {
      if id in VlanIds(t) {
        var i :| 0 <= i < |t.vlans| && t.vlans[i].id == id;
        assert t'.vlans[i] in t'.vlans;
      }
      if id in VlanIds(t') {
        var i :| 0 <= i < |t'.vlans| && t'.vlans[i].id == id;
        assert t.vlans[i] in t.vlans;
      }
    }
  }

  lemma PatchKeepsKeys(t: Tables, id: Id, patch: Db.VlanPatch)
    requires Db.Keyed(t) && HasVlan(t, id)
    ensures Db.Keyed(Db.UpdateVlan(t, id, patch).value)
  {
    var vlans := Db.UpdateVlan(t, id, patch).value.vlans;
    forall v, w | v in vlans && w in vlans && v.id == w.id
      ensures v == w
    {
      var i :| 0 <= i < |vlans| && vlans[i] == v;
      var j :| 0 <= j < |vlans| && vlans[j] == w;
      assert t.vlans[i] in t.vlans && t.vlans[j] in t.vlans;
    }
  }

  lemma RowIffVlan(t: Tables, id: Id)
    ensures id in VlanRows(t) <==> HasVlan(t, id)
  {
    KeysOfRows(t);
  }

  lemma FoundAfterDelete(t: Tables, vlans: seq<VlanRow>, id: Id, v: VlanRow)
    requires Db.Keyed(t) && v in t.vlans && v.id != id && vlans == Filter(t.vlans, OtherVlan(id))
    ensures FindVlan(vlans, v.id) == Some(v)
  {
    assert v in vlans;
  }

  lemma RowAfterDelete(t: Tables, t': Tables, id: Id, k: Id)
    requires Db.Keyed(t) && t'.vlans == Filter(t.vlans, OtherVlan(id)) && k in VlanIds(t) && k != id
    ensures k in VlanRows(t) && k in VlanRows(t') && VlanRows(t')[k] == VlanRows(t)[k]
  {
    var v :| v in t.vlans && v.id == k;
    UniqueVlan(t, v);
    FoundAfterDelete(t, t'.vlans, id, v);
  }

  lemma IdsAfterDelete(t: Tables, t': Tables, id: Id)
    requires t'.vlans == Filter(t.vlans, OtherVlan(id))
    ensures VlanIds(t') == VlanIds(t) - {id}
  {
  }

  lemma RowsDeleted(rows: ResourceRows, rows': ResourceRows, id: Id)
    requires rows'.Keys == rows.Keys - {id} && forall k | k in rows && k != id :: rows'[k] == rows[k]
    ensures rows' == rows - {id}
  {
  }

  lemma RowsAfterDelete(t: Tables, id: Id)
    requires Db.Keyed(t) && HasVlan(t, id)
    ensures VlanRows(Db.DeleteVlan(t, id).value) == VlanRows(t) - {id}
  {
    var t' := Db.DeleteVlan(t, id).value;
    IdsAfterDelete(t, t', id);
    KeysOfRows(t);
    KeysOfRows(t');
    forall k | k in VlanRows(t) && k != id
      ensures VlanRows(t')[k] == VlanRows(t)[k]
    {
      RowAfterDelete(t, t', id, k);
    }
    RowsDeleted(VlanRows(t), VlanRows(t'), id);
  }

  /** The decorator does to the VLAN table what the status machine says. */
  lemma TablesFollowTheMachine(t: Tables, action: Action, wrapped: Wrapped)
    requires Db.Keyed(t)
    ensures var (t', answer) := ConcludedTables(t, action, wrapped);
            (VlanRows(t'), answer) == Concluded(VlanRows(t), action, wrapped)
  {
    if !wrapped.OtherException? && action != OtherAction {
      RowIffVlan(t, wrapped.id);
      if HasVlan(t, wrapped.id) {
        PresentRowFollows(t, action, wrapped);
      }
    }
  }

  lemma PresentRowFollows(t: Tables, action: Action, wrapped: Wrapped)
    requires Db.Keyed(t) && !wrapped.OtherException? && action != OtherAction
    requires HasVlan(t, wrapped.id) && wrapped.id in VlanRows(t)
    ensures var (t', answer) := ConcludedTables(t, action, wrapped);
            (VlanRows(t'), answer) == Concluded(VlanRows(t), action, wrapped)
  {
    if FinalStatus(action, wrapped).None? {
      RowsAfterDelete(t, wrapped.id);
    } else if wrapped.Payload? {
      RowsAfterUpdate(t, wrapped.id, Active, ChangesCompleted);
    } else {
      RowsAfterUpdate(t, wrapped.id, Status.Error, FailureNote(wrapped.message));
    }
  }

  /** What the decorator leaves of the VLAN and answers, by the name of the method and its end. A VLAN that stays
      has its new status and a note of it, and every other column as before; a VLAN that goes is deleted. */
  lemma ConcludedExactly(t: Tables, action: Action, wrapped: Wrapped, v: VlanRow)
    requires Db.Keyed(t) && v in t.vlans && action != OtherAction
    requires !wrapped.OtherException? && wrapped.id == v.id
    ensures var (t', answer) := ConcludedTables(t, action, wrapped);
            var note := if wrapped.Payload? then ChangesCompleted
                        else if wrapped.message == "" then ErrorInPushing
                        else Message(wrapped.message);
            var v' := v.(status := if wrapped.Payload? then Active else Status.Error, description := note);
            var goes := if wrapped.Payload? then action == DeleteAction else action == CreateAction;
            && (if goes then Db.DeleteVlan(t, v.id) == Db.Outcome.Ok(t')
                else t' == t.(vlans := t'.vlans) && |t'.vlans| == |t.vlans| && forall i | 0 <= i < |t.vlans| ::
                  t'.vlans[i] == if t.vlans[i] == v then v' else t.vlans[i])
            && answer == (if wrapped.PushFailure? then InnerException(wrapped.message)
                          else if action == DeleteAction then Nothing
                          else View(ResourceRow(Active, ChangesCompleted)))
  {
    assert HasVlan(t, v.id);
    if action == UpdateAction || (action == CreateAction) == wrapped.Payload? {
      forall i | 0 <= i < |t.vlans|
        ensures t.vlans[i].id == v.id <==> t.vlans[i] == v
      {
        assert t.vlans[i] in t.vlans;
      }
    }
  }

  /** Where it changes nothing: another exception goes through, a method name it does not know is passed over,
      and a resource without a row is an exception of its own. */
  lemma NotConcluded(t: Tables, action: Action, wrapped: Wrapped)
    ensures wrapped.OtherException? ==> ConcludedTables(t, action, wrapped) == (t, Propagated(wrapped.message))
    ensures !wrapped.OtherException? && action == OtherAction ==> ConcludedTables(t, action, wrapped) == (t, Nothing)
    ensures !wrapped.OtherException? && action != OtherAction && !HasVlan(t, wrapped.id) ==>
              ConcludedTables(t, action, wrapped) == (t, RowNotFound)
  {
  }

  /** The status machine: create ends ACTIVE or absent, update ACTIVE or ERROR, delete absent or ERROR; the
      inner exception reaches the caller exactly on a push failure, and no other row changes. */
  ghost predicate EndsAsPromised(rows: ResourceRows, rows': ResourceRows, answer: Answer, action: Action,
      wrapped: Wrapped)
    requires !wrapped.OtherException?
  {
    var id := wrapped.id;
    && (action == CreateAction ==> id !in rows' || rows'[id].status == Active)
    && (action == UpdateAction ==> id in rows' && (rows'[id].status == Active || rows'[id].status == Status.Error))
    && (action == DeleteAction ==> id !in rows' || rows'[id].status == Status.Error)
    && (answer.InnerException? <==> wrapped.PushFailure?)
    && (wrapped.PushFailure?
        <==> (id in rows' && rows'[id].status == Status.Error) || (action == CreateAction && id !in rows'))
    && rows' - {id} == rows - {id}
  }

  lemma MachineEndsAsPromised(rows: ResourceRows, action: Action, wrapped: Wrapped)
    requires action != OtherAction && !wrapped.OtherException? && wrapped.id in rows
    ensures var (rows', answer) := Concluded(rows, action, wrapped);
            EndsAsPromised(rows, rows', answer, action, wrapped)
  {
  }

  /** So does the decorated VLAN table. */
  lemma StatusMachine(t: Tables, action: Action, wrapped: Wrapped)
    requires Db.Keyed(t) && action != OtherAction && !wrapped.OtherException? && HasVlan(t, wrapped.id)
    ensures var (t', answer) := ConcludedTables(t, action, wrapped);
            EndsAsPromised(VlanRows(t), VlanRows(t'), answer, action, wrapped)
  {
    TablesFollowTheMachine(t, action, wrapped);
    RowIffVlan(t, wrapped.id);
    MachineEndsAsPromised(VlanRows(t), action, wrapped);
  }

  /** One decorated call: the wrapped method leaves `touched` as the row of `id`, then ends as `wrapped` says. */
  datatype Call = Call(action: Action, id: Id, touched: ResourceRow, wrapped: Wrapped)

  predicate WellFormed(c: Call) {
    c.wrapped.OtherException? || c.wrapped.id == c.id
  }

  predicate Acts(c: Call) {
    WellFormed(c) && !c.wrapped.OtherException? && c.action != OtherAction
  }

  function AfterCall(rows: ResourceRows, c: Call): ResourceRows {
    Concluded(rows[c.id := c.touched], c.action, c.wrapped).0
  }

  function AfterCalls(rows: ResourceRows, calls: seq<Call>): ResourceRows {
    if calls == [] then rows else AfterCall(AfterCalls(rows, calls[..|calls| - 1]), calls[|calls| - 1])
  }

  ghost predicate NothingPending(rows: ResourceRows) {
    forall id | id in rows :: rows[id].status != PendingDelete
  }

  /** A call leaves a row in PENDING_DELETE exactly when the wrapped method put it there and the decorator
      never acts: another exception, or a method name it does not recognise. */
  lemma PendingLeftExactly(rows: ResourceRows, c: Call)
    requires NothingPending(rows) && WellFormed(c)
    ensures NothingPending(AfterCall(rows, c)) <==>
            c.touched.status != PendingDelete || !(c.wrapped.OtherException? || c.action == OtherAction)
  {
    var rows' := AfterCall(rows, c);
    assert forall id | id in rows' && id != c.id :: id in rows && rows'[id] == rows[id];
    assert c.id in rows[c.id := c.touched];
  }

  /** Over every run of decorated calls that end by a payload or a push failure, nothing stays pending. */
  lemma {:induction false} RunsLeaveNothingPending(rows: ResourceRows, calls: seq<Call>)
    requires NothingPending(rows)
    requires forall c | c in calls :: Acts(c)
    ensures NothingPending(AfterCalls(rows, calls))
  {
    if calls != [] {
      var n := |calls| - 1;
      assert forall c | c in calls[..n] :: c in calls;
      assert calls[n] in calls;
      RunsLeaveNothingPending(rows, calls[..n]);
      PendingLeftExactly(AfterCalls(rows, calls[..n]), calls[n]);
    }
  }

  /** Over every run the last decorated call on a resource decides alone what becomes of it. */
  lemma {:induction false} LastCallDecides(rows: ResourceRows, calls: seq<Call>, k: nat)
    requires k < |calls| && Acts(calls[k]) && forall j | 0 <= j < |calls| :: Acts(calls[j])
    requires forall j | k < j < |calls| :: calls[j].id != calls[k].id
    ensures var id, ended := calls[k].id, FinalStatus(calls[k].action, calls[k].wrapped);
            && (id in AfterCalls(rows, calls) <==> ended.Some?)
            && (ended.Some? ==> AfterCalls(rows, calls)[id].status == ended.value)
  {
    var n := |calls| - 1;
    if k < n {
      LastCallDecides(rows, calls[..n], k);
    }
  }
}
