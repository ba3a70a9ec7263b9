/**
 * The code-action coordinator of Atom IDE
 * (modules/atom-ide-ui/pkg/atom-ide-code-actions/lib/CodeActionManager.js).
 *
 * Providers, editors, actions and the linter delegate are host objects; here
 * they are values. A provider is the pair of its applicability test (what the
 * provider registry consults) and its `getCodeActions` as a pure function of
 * its arguments. Each provider call is recorded as a `Query` so that "which
 * providers were asked, with what" can be stated. Promises are taken as
 * already resolved.
 */
module CodeActions {
  import opened Wrappers

  datatype Point = Point(row: nat, column: nat)
  datatype Range = Range(start: Point, end: Point)

  /** A text editor, with the path of its buffer (absent for unsaved buffers). */
  datatype Editor = Editor(id: nat, path: Option<string>)

  datatype Diagnostic = Diagnostic(providerName: string, range: Option<Range>, text: string)

  /** A code action: its title (already resolved) and its identity, which `apply` is bound to. */
  datatype Action = Action(id: nat, title: string)

  datatype Solution = Solution(title: string, position: Range, apply: Action)
  datatype Location = Location(file: string, position: Range)

  /** The linter message (`LinterMessageV2`) that presents the actions. */
  datatype Message = Message(location: Location, solutions: seq<Solution>,
                             excerpt: string, severity: string, kind: string)

  datatype Provider = Provider(appliesTo: Editor -> bool,
                               getCodeActions: (Editor, Range, seq<Diagnostic>) -> seq<Action>)

  /** A provider in the registry, with the handle its registration disposable removes. */
  datatype Registration = Registration(handle: nat, provider: Provider)

  /** One call of a provider's `getCodeActions`. */
  datatype Query = Query(handle: nat, editor: Editor, range: Range, diagnostics: seq<Diagnostic>)

  /** The indie linter delegate handed out by the linter package. */
  datatype Delegate = Delegate(id: nat)

  /** The teardowns held in the manager's `_disposables`. */
  datatype Disposable = SelectionSubscription | ProviderDisposable(handle: nat) | DelegateDisposable(delegate: Delegate)

  /** A call the manager makes on its linter delegate. */
  datatype DelegateCall = ClearMessages(target: Delegate) | SetAllMessages(target: Delegate, messages: seq<Message>)

  const EXCERPT: string := "Select an action"
  const SEVERITY: string := "info"
  const KIND: string := "action"
  const LINTER_NAME: string := "Code Actions"

  // ---------------------------------------------------------------------------
  // Messages

  /** `actionsToMessage`: one solution per action, in order, at the location's position. */
  function ActionsToMessage(location: Location, actions: seq<Action>): (m: Message)
    ensures m.location == location
    ensures m.excerpt == EXCERPT && m.severity == SEVERITY && m.kind == KIND
    ensures |m.solutions| == |actions|
    ensures forall i :: 0 <= i < |actions| ==>
              m.solutions[i].title == actions[i].title &&
              m.solutions[i].position == location.position &&
              m.solutions[i].apply == actions[i]
  {
    Message(location,
            seq(|actions|, i requires 0 <= i < |actions| => Solution(actions[i].title, location.position, actions[i])),
            EXCERPT, SEVERITY, KIND)
  }

  /** The actions a message's solutions apply, in order. */
  function BoundActions(m: Message): (r: seq<Action>)
  {
    seq(|m.solutions|, i requires 0 <= i < |m.solutions| => m.solutions[i].apply)
  }

  /** Every action of the query can be applied from the message, in the same order. */
  lemma ActionsToMessageKeepsActions(location: Location, actions: seq<Action>)
    ensures BoundActions(ActionsToMessage(location, actions)) == actions
  {
    var m := ActionsToMessage(location, actions);
    assert forall i :: 0 <= i < |actions| ==> BoundActions(m)[i] == actions[i];
  }

  // ---------------------------------------------------------------------------
  // Selection events

  /**
   * The filter of the selection stream: a range is passed on unless it is
   * empty (a cursor movement), that is unless its two ends coincide.
   */
  function IsActionableSelection(range: Range): (r: bool)
    ensures r <==> range.start != range.end
  {
    range.start.column != range.end.column || range.start.row != range.end.row
  }

  // ---------------------------------------------------------------------------
  // Querying the providers

  /** `getAllProvidersForEditor`: the registered providers that apply to `editor`, in registry order. */
  function ProvidersForEditor(regs: seq<Registration>, editor: Editor): (r: seq<Registration>)
    ensures |r| <= |regs|
    ensures forall k :: 0 <= k < |r| ==> r[k].provider.appliesTo(editor)
  {
    if regs == [] then []
    else (if regs[0].provider.appliesTo(editor) then [regs[0]] else []) + ProvidersForEditor(regs[1..], editor)
  }

  /** Each applicable provider's actions, one list per provider, in registry order. */
  function ProviderResults(regs: seq<Registration>, editor: Editor, range: Range, diagnostics: seq<Diagnostic>): (r: seq<seq<Action>>)
  {
    var ps := ProvidersForEditor(regs, editor);
    seq(|ps|, k requires 0 <= k < |ps| => ps[k].provider.getCodeActions(editor, range, diagnostics))
  }

  /** The provider calls a query makes, in registry order. */
  function QueriesFor(regs: seq<Registration>, editor: Editor, range: Range, diagnostics: seq<Diagnostic>): (r: seq<Query>)
  {
    var ps := ProvidersForEditor(regs, editor);
    seq(|ps|, k requires 0 <= k < |ps| => Query(ps[k].handle, editor, range, diagnostics))
  }

  /** `arrayFlatten`: the lists one after the other. */
  function Flatten<T>(xss: seq<seq<T>>): (r: seq<T>)
  {
    if xss == [] then [] else xss[0] + Flatten(xss[1..])
  }

  /** The actions `_genAllCodeActions` resolves to. */
  function AllCodeActions(regs: seq<Registration>, editor: Editor, range: Range, diagnostics: seq<Diagnostic>): (r: seq<Action>)
  {
    Flatten(ProviderResults(regs, editor, range, diagnostics))
  }

  lemma {:induction false} FlattenAppend<T>(a: seq<seq<T>>, b: seq<seq<T>>)
    ensures Flatten(a + b) == Flatten(a) + Flatten(b)
  {
    if a == [] {
      assert a + b == b;
    } else {
      assert (a + b)[1..] == a[1..] + b;
      FlattenAppend(a[1..], b);
    }
  }

  lemma {:induction false} ProvidersForEditorAppend(a: seq<Registration>, b: seq<Registration>, editor: Editor)
    ensures ProvidersForEditor(a + b, editor) == ProvidersForEditor(a, editor) + ProvidersForEditor(b, editor)
  {
    if a == [] {
      assert a + b == b;
    } else {
      assert (a + b)[1..] == a[1..] + b;
      ProvidersForEditorAppend(a[1..], b, editor);
    }
  }

  /**
   * Registering one more provider appends its actions (when it applies) after
   * those of every earlier registration.
   */
  lemma AllCodeActionsAfterRegistration(regs: seq<Registration>, reg: Registration,
                                        editor: Editor, range: Range, diagnostics: seq<Diagnostic>)
    ensures AllCodeActions(regs + [reg], editor, range, diagnostics) ==
            AllCodeActions(regs, editor, range, diagnostics) +
            (if reg.provider.appliesTo(editor) then reg.provider.getCodeActions(editor, range, diagnostics) else [])
  {
    ProvidersForEditorAppend(regs, [reg], editor);
    assert [reg][1..] == [];
    var before := ProviderResults(regs, editor, range, diagnostics);
    var own := if reg.provider.appliesTo(editor) then [reg.provider.getCodeActions(editor, range, diagnostics)] else [];
    assert ProviderResults(regs + [reg], editor, range, diagnostics) == before + own;
    FlattenAppend(before, own);
    if own != [] {
      assert own[1..] == [];
      assert Flatten(own) == own[0];
    }
  }

  /** A registration left out of the registry is never queried. */
  lemma QueriesOnlyRegistered(regs: seq<Registration>, handle: nat,
                              editor: Editor, range: Range, diagnostics: seq<Diagnostic>)
    requires forall k :: 0 <= k < |regs| ==> regs[k].handle != handle
    ensures forall q :: q in QueriesFor(regs, editor, range, diagnostics) ==> q.handle != handle
  {
    var ps := ProvidersForEditor(regs, editor);
    ProvidersForEditorFromRegistry(regs, editor);
    forall q | q in QueriesFor(regs, editor, range, diagnostics)
      ensures q.handle != handle
    {
      var k :| 0 <= k < |ps| && q == Query(ps[k].handle, editor, range, diagnostics);
      assert ps[k] in regs;
    }
  }

  /** `getAllProvidersForEditor` keeps exactly the registrations that apply to the editor. */
  lemma {:induction false} ProvidersForEditorFromRegistry(regs: seq<Registration>, editor: Editor)
    ensures forall x :: x in ProvidersForEditor(regs, editor) <==> x in regs && x.provider.appliesTo(editor)
  {
    if regs != [] {
      ProvidersForEditorFromRegistry(regs[1..], editor);
      assert regs == [regs[0]] + regs[1..];
    }
  }

  /** The registry with the registration of `handle` taken out. */
  function WithoutHandle(regs: seq<Registration>, handle: nat): (r: seq<Registration>)
    ensures |r| <= |regs|
    ensures forall k :: 0 <= k < |r| ==> r[k].handle != handle
  {
    if regs == [] then []
    else (if regs[0].handle == handle then [] else [regs[0]]) + WithoutHandle(regs[1..], handle)
  }

  // ---------------------------------------------------------------------------
  // The manager

  class CodeActionManager {
    /** `_providerRegistry`, in registration order. */
    var providers: seq<Registration>
    /** The handle the registry gives the next registration. */
    var nextHandle: nat
    /** `_disposables`. */
    var disposables: set<Disposable>
    /** `_linterDelegate`. */
    var linterDelegate: Option<Delegate>

    /** Handles are issued in increasing order, and each registration's disposable is held. */
    ghost predicate Valid()
      reads this
    {
      && SelectionSubscription in disposables
      && (forall i, j :: 0 <= i < j < |providers| ==> providers[i].handle < providers[j].handle)
      && (forall i :: 0 <= i < |providers| ==> providers[i].handle < nextHandle)
      && (forall i :: 0 <= i < |providers| ==> ProviderDisposable(providers[i].handle) in disposables)
    }

    /** The constructor: an empty registry, and the selection subscription as the only disposable. */
    constructor ()
      ensures Valid()
      ensures providers == [] && nextHandle == 0
      ensures disposables == {SelectionSubscription} && linterDelegate == None
    {
      providers := [];
      nextHandle := 0;
      disposables := {SelectionSubscription};
      linterDelegate := None;
    }

    /** `addProvider`: registers the provider and keeps the registration's disposable. */
    method AddProvider(provider: Provider) returns (d: Disposable)
      requires Valid()
      modifies this
      ensures Valid()
      ensures d == ProviderDisposable(old(nextHandle))
      ensures providers == old(providers) + [Registration(old(nextHandle), provider)]
      ensures nextHandle == old(nextHandle) + 1
      ensures disposables == old(disposables) + {d}
      ensures linterDelegate == old(linterDelegate)
    {
      d := ProviderDisposable(nextHandle);
      providers := providers + [Registration(nextHandle, provider)];
      nextHandle := nextHandle + 1;
      disposables := disposables + {d};
    }

    /** Disposing a provider's registration: the registry no longer holds it. */
    method RemoveProvider(handle: nat)
      requires Valid()
      modifies this
      ensures Valid()
      ensures providers == WithoutHandle(old(providers), handle)
      ensures nextHandle == old(nextHandle)
      ensures disposables == old(disposables) && linterDelegate == old(linterDelegate)
    {
      WithoutHandleSorted(providers, handle);
      WithoutHandleFromRegistry(providers, handle);
      ghost var before := providers;
      providers := WithoutHandle(providers, handle);
      forall i | 0 <= i < |providers|
        ensures providers[i].handle < nextHandle && ProviderDisposable(providers[i].handle) in disposables
      {
        assert providers[i] in providers;
        var j :| 0 <= j < |before| && before[j] == providers[i];
      }
    }

    /**
     * `consumeIndie`: registers the linter under the name "Code Actions",
     * keeps the delegate, and returns the disposable that detaches it.
     */
    method ConsumeIndie(register: string -> Delegate) returns (h: IndieDisposable)
      requires Valid()
      modifies this
      ensures Valid()
      ensures fresh(h) && h.manager == this && h.delegate == register(LINTER_NAME) && !h.disposed
      ensures linterDelegate == Some(register(LINTER_NAME))
      ensures disposables == old(disposables) + {DelegateDisposable(register(LINTER_NAME))}
      ensures providers == old(providers) && nextHandle == old(nextHandle)
    {
      var delegate := register(LINTER_NAME);
      disposables := disposables + {DelegateDisposable(delegate)};
      linterDelegate := Some(delegate);
      h := new IndieDisposable(this, delegate);
    }

    /**
     * `_genAllCodeActions`: asks every provider that applies to the editor, in
     * registry order, and concatenates their actions.
     */
    method GenAllCodeActions(editor: Editor, range: Range, diagnostics: seq<Diagnostic>)
      returns (actions: seq<Action>, queries: seq<Query>)
      ensures actions == AllCodeActions(providers, editor, range, diagnostics)
      ensures queries == QueriesFor(providers, editor, range, diagnostics)
    {
      var applicable := ProvidersForEditor(providers, editor);
      var requests: seq<seq<Action>> := [];
      queries := [];
      for i := 0 to |applicable|
        invariant |requests| == i && |queries| == i
        invariant forall k :: 0 <= k < i ==>
                    requests[k] == applicable[k].provider.getCodeActions(editor, range, diagnostics)
        invariant forall k :: 0 <= k < i ==>
                    queries[k] == Query(applicable[k].handle, editor, range, diagnostics)
      {
        requests := requests + [applicable[i].provider.getCodeActions(editor, range, diagnostics)];
        queries := queries + [Query(applicable[i].handle, editor, range, diagnostics)];
      }
      assert requests == ProviderResults(providers, editor, range, diagnostics);
      actions := Flatten(requests);
    }

    /** `createCodeActionFetcher`: a fetcher that queries this manager. */
    method CreateCodeActionFetcher() returns (f: CodeActionFetcher)
      ensures fresh(f) && f.manager == this
    {
      f := new CodeActionFetcher(this);
    }

    /** `disposeMessages`, run on every selection change: clear the delegate's messages, if there is one. */
    function SelectionChangedCalls(): (calls: seq<DelegateCall>)
      reads this
      ensures calls == [] <==> linterDelegate.None?
      ensures linterDelegate.Some? ==> calls == [ClearMessages(linterDelegate.value)]
    {
      match linterDelegate
      case None => []
      case Some(d) => [ClearMessages(d)]
    }

    /**
     * A selection change once the 500 ms quiet period has passed: empty
     * selections are dropped; an editor without a file is ignored; otherwise
     * the providers are queried with no diagnostics, and if any action comes
     * back a single message is published to the delegate, if there is one.
     */
    method SelectionSettled(editor: Editor, range: Range) returns (queries: seq<Query>, calls: seq<DelegateCall>)
      ensures !IsActionableSelection(range) || editor.path.None? ==> queries == [] && calls == []
      ensures IsActionableSelection(range) && editor.path.Some? ==>
                queries == QueriesFor(providers, editor, range, [])
      ensures calls != [] <==>
                IsActionableSelection(range) && editor.path.Some? &&
                AllCodeActions(providers, editor, range, []) != [] && linterDelegate.Some?
      ensures calls != [] ==>
                calls == [SetAllMessages(linterDelegate.value,
                                         [ActionsToMessage(Location(editor.path.value, range),
                                                           AllCodeActions(providers, editor, range, []))])]
      ensures forall c :: c in calls ==> c.SetAllMessages? && |c.messages| == 1 && c.messages[0].solutions != []
    {
      queries, calls := [], [];
      if !IsActionableSelection(range) {
        return;
      }
      var file := editor.path;
      if file.None? {
        return;
      }
      var actions;
      actions, queries := GenAllCodeActions(editor, range, []);
      if |actions| > 0 {
        var message := ActionsToMessage(Location(file.value, range), actions);
        if linterDelegate.Some? {
          calls := [SetAllMessages(linterDelegate.value, [message])];
        }
      }
    }
  }

  /** Disposing a registration keeps exactly the registrations with other handles. */
  lemma {:induction false} WithoutHandleFromRegistry(regs: seq<Registration>, handle: nat)
    ensures forall x :: x in WithoutHandle(regs, handle) <==> x in regs && x.handle != handle
  {
    if regs != [] {
      WithoutHandleFromRegistry(regs[1..], handle);
      assert regs == [regs[0]] + regs[1..];
    }
  }

  /** Taking a registration out keeps the others in increasing handle order. */
  lemma {:induction false} WithoutHandleSorted(regs: seq<Registration>, handle: nat)
    requires forall i, j :: 0 <= i < j < |regs| ==> regs[i].handle < regs[j].handle
    ensures forall i, j :: 0 <= i < j < |WithoutHandle(regs, handle)| ==>
              WithoutHandle(regs, handle)[i].handle < WithoutHandle(regs, handle)[j].handle
  {
    if regs != [] {
      var rest := WithoutHandle(regs[1..], handle);
      WithoutHandleSorted(regs[1..], handle);
      WithoutHandleFromRegistry(regs[1..], handle);
      forall x | x in rest
        ensures regs[0].handle < x.handle
      {
        var j :| 0 <= j < |regs[1..]| && regs[1..][j] == x;
        assert regs[j + 1] == x;
      }
    }
  }

  /** The disposable `consumeIndie` returns; disposing it a second time does nothing. */
  class IndieDisposable {
    const manager: CodeActionManager
    const delegate: Delegate
    var disposed: bool

    constructor (manager: CodeActionManager, delegate: Delegate)
      ensures this.manager == manager && this.delegate == delegate && !disposed
    {
      this.manager := manager;
      this.delegate := delegate;
      disposed := false;
    }

    /** Forgets the delegate, whichever delegate is current, and drops it from the manager's disposables. */
    method Dispose()
      requires manager.Valid()
      modifies this, manager
      ensures manager.Valid() && disposed
      ensures old(disposed) ==> unchanged(manager)
      ensures !old(disposed) ==>
                manager.linterDelegate == None &&
                manager.disposables == old(manager.disposables) - {DelegateDisposable(delegate)} &&
                manager.providers == old(manager.providers) && manager.nextHandle == old(manager.nextHandle)
    {
      if !disposed {
        manager.disposables := manager.disposables - {DelegateDisposable(delegate)};
        manager.linterDelegate := None;
        disposed := true;
      }
    }
  }

  /** The object `createCodeActionFetcher` returns. */
  class CodeActionFetcher {
    const manager: CodeActionManager

    constructor (manager: CodeActionManager)
      ensures this.manager == manager
    {
      this.manager := manager;
    }

    /**
     * `getCodeActionForDiagnostic`: a diagnostic with a range queries the
     * providers with that range and the diagnostic alone; one without a range
     * yields no actions and asks no provider.
     */
    method GetCodeActionForDiagnostic(diagnostic: Diagnostic, editor: Editor)
      returns (actions: seq<Action>, queries: seq<Query>)
      ensures diagnostic.range.None? ==> actions == [] && queries == []
      ensures diagnostic.range.Some? ==>
                actions == AllCodeActions(manager.providers, editor, diagnostic.range.value, [diagnostic]) &&
                queries == QueriesFor(manager.providers, editor, diagnostic.range.value, [diagnostic])
      ensures forall k :: 0 <= k < |queries| ==>
                Some(queries[k].range) == diagnostic.range && queries[k].diagnostics == [diagnostic]
    {
      if diagnostic.range.Some? {
        var range := diagnostic.range.value;
        actions, queries := manager.GenAllCodeActions(editor, range, [diagnostic]);
      } else {
        actions, queries := [], [];
      }
    }
  }
}
