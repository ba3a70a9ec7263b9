# Outline symbol sanitizer and code-action messages

A Dafny model of two small pieces of Nuclide / Atom IDE.

**The outline symbol sanitizer** (`sanitizers.dfy`, module `Sanitizers`)
cleans the symbol names a C, C++ or Objective-C language server reports for
the outline view. `sanitizeSymbol` maps an absent name to `""`. Any other
name goes through four stages in a fixed order:

1. Operator names. `operator (int)` loses its `operator (` prefix, and the
   class call operator `operator()` becomes `operator`.
2. The Objective-C `_Nonnull` rewrite `ret _Nonnull (args) name` → `ret name(args)`,
   followed by deletion of every ` __strong` and ` _Nonnull`.
3. Removal of trailing Objective-C keyword arguments (`foo:bar:` → `foo`).
   A colon that is the second half of a C++ `::` is kept.
4. The anonymous-scope markers `(anon)` and `(anonymous namespace)` become
   `namespace` and `anonymous_namespace`.

Each stage is a function on `string`. Each regular expression is written as
an explicit search:
- The greedy `/(.*) _Nonnull \((.*)\) (.*)/` becomes `FindNonnull`. It takes
  the last ` _Nonnull (` whose tail still holds a `) `, then the last `) ` in
  that tail. `FindNonnullIsGreedyMatch` proves this is the split the
  backtracking matcher picks.
- `/ (__strong|_Nonnull)/g` becomes a single left-to-right deletion pass.
- The two anonymous-marker regexes become a literal global replace.

`SanitizeSymbol` keeps the source's loop over the list of stages. It is
proved equal to the explicit four-stage composition `Sanitized`.

**The code-action manager** (`code_actions.dfy`, module `CodeActions`)
gathers code actions from the registered providers and shows them as one
linter message for the current selection. The class `CodeActionManager`
holds:
- the provider registry, a `seq` of registrations in registration order;
- the set of held disposables;
- the optional indie linter delegate.

Its methods add and remove providers, attach and detach the delegate, and
query the providers. Providers are pure functions of (editor, range,
diagnostics). Every provider call is returned as a `Query`, so "no provider
is asked" can be stated. Calls on the linter delegate are returned as a
sequence of `DelegateCall`s.

`sanitizer_examples.dfy` works through concrete inputs. `wrappers.dfy`
holds the `Option` type, which stands in for JavaScript's `null`/`undefined`.

Behaviour worth noting, and where the code and its comments disagree:
- `foo:bar:baz:` gives `foo`. `removeObjcFunctionArguments` cuts at the last
  colon and recurses until the first colon-free prefix
  (`SanitizerExamples.KeywordArgumentsExample`).
- The comment at `sanitizers.js:53` shows `Ret * _Nonnull (NSUInteger) funct`
  becoming `Ret *funct(NSUInteger)`. The replacement template
  `${p1} ${p3}(${p2})` keeps the space: the result is
  `Ret * funct(NSUInteger)` (`Sanitizers.SanitizeObjcSymbolOfSignature`).

## Model

| member | source | states |
|---|---|---|
| Sanitizers.SanitizeSymbol | pkg/nuclide-cquery-lsp-rpc/lib/outline/sanitizers.js:15-29 | An absent name gives `""`. Any other name is run through operator → objc → arguments → anonymous, each stage fed the previous one's output. The result never holds `(anon)` or `(anonymous namespace)`. |
| Sanitizers.SanitizeOperator | pkg/nuclide-cquery-lsp-rpc/lib/outline/sanitizers.js:60-67 | A name starting with `operator (` loses exactly that 10-character prefix. Exactly `operator()` becomes `operator`. Any other name is returned unchanged, and no result is longer than its input. |
| SanitizerExamples.OperatorExamples | pkg/nuclide-cquery-lsp-rpc/lib/outline/sanitizers.js:60-67 | `operator (int)` → `int)`, `operator()` → `operator`, `operator+` unchanged. |
| Sanitizers.LastIndexOf | pkg/nuclide-cquery-lsp-rpc/lib/outline/sanitizers.js:42 | Gives -1 exactly when the character is absent. Otherwise it gives an index holding the character, with no occurrence after it. |
| Sanitizers.LastColonIsUnique | pkg/nuclide-cquery-lsp-rpc/lib/outline/sanitizers.js:42 | A colon with no colon after it is the index `lastIndexOf(':')` returns. |
| Sanitizers.LastOccurrence | pkg/nuclide-cquery-lsp-rpc/lib/outline/sanitizers.js:54 | The last index where a literal occurs, or -1. The literal occurs there and at no later index. |
| Sanitizers.FindNonnullIsGreedyMatch | pkg/nuclide-cquery-lsp-rpc/lib/outline/sanitizers.js:54 | Three facts about the match found: its captures reassemble the name around ` _Nonnull (` and `) `; the third capture holds no `) `; and no later start of the first literal can begin a match, so the first capture is the longest. A name with no match has no place where the regex could match. |
| Sanitizers.NonnullSplit | pkg/nuclide-cquery-lsp-rpc/lib/outline/sanitizers.js:54 | The same facts for the whole name: a true three-way split, the greedy choice, and no match exactly when no split exists. Its search is `FindNonnull`, which tries the first capture from the longest down, as backtracking does. |
| Sanitizers.CloseSplitUnique | pkg/nuclide-cquery-lsp-rpc/lib/outline/sanitizers.js:54 | A string splits around a last `) ` in only one way, so the second and third captures are determined. |
| Sanitizers.NonnullSplitOfParts | pkg/nuclide-cquery-lsp-rpc/lib/outline/sanitizers.js:52-54 | A convenient case of `NonnullSplitOfGreedyParts`: with no `_` in `p2` and `p3`, no later match can start, so `p1 _Nonnull (p2) p3` (no `) ` in `p3`) has exactly the captures `p1`, `p2` and `p3`. |
| Sanitizers.NonnullSplitOfGreedyParts | pkg/nuclide-cquery-lsp-rpc/lib/outline/sanitizers.js:54 | The converse of `NonnullSplit`: a split `p1 _Nonnull (p2) p3` with no `) ` in `p3` and no match starting after `p1` is the regex's match, so the captures are exactly `p1`, `p2` and `p3`. Underscores may occur anywhere, as in `dispatch_queue_t _Nonnull (int) my_queue`. |
| Sanitizers.RewriteNonnull | pkg/nuclide-cquery-lsp-rpc/lib/outline/sanitizers.js:51-56 | A name with no match is kept. A rewritten name is exactly 10 characters shorter. |
| Sanitizers.RewriteNonnullOfGreedyParts | pkg/nuclide-cquery-lsp-rpc/lib/outline/sanitizers.js:51-56 | A name `p1 _Nonnull (p2) p3`, matched greedily (no `) ` in `p3`, no match after `p1`), is rewritten to exactly `p1 p3(p2)`, written as `${p1} ${p3}(${p2})`. |
| Sanitizers.StripQualifiers | pkg/nuclide-cquery-lsp-rpc/lib/outline/sanitizers.js:57 | The deletion never lengthens the name. A name that changes is at least 9 characters shorter, the length of one qualifier. A name with neither qualifier is unchanged. |
| Sanitizers.StripQualifiersAtFirst | pkg/nuclide-cquery-lsp-rpc/lib/outline/sanitizers.js:57 | For `a` + ` __strong` + `b` or `a` + ` _Nonnull` + `b`, where no qualifier starts inside `a`, the result is `a` followed by the deletion applied to `b`. The first qualifier is deleted, everything before it is kept, and the pass goes on after it. |
| Sanitizers.StripQualifiersKeepsPrefix | pkg/nuclide-cquery-lsp-rpc/lib/outline/sanitizers.js:57 | A leading part in which no qualifier starts is kept unchanged before the deletion of the rest. |
| Sanitizers.SanitizeObjcSymbol | pkg/nuclide-cquery-lsp-rpc/lib/outline/sanitizers.js:49-58 | Never lengthens the name. It shortens by at least 10 when the `_Nonnull` pattern matches. It is the identity when there is no match and no qualifier. |
| Sanitizers.SanitizeObjcSymbolOfSignature | pkg/nuclide-cquery-lsp-rpc/lib/outline/sanitizers.js:52-57 | A greedy match `ret _Nonnull (args) name` (no `) ` in `name`, no match after `ret`) gives the qualifier deletion of `ret name(args)`, keeping the space before `name`. When `ret name(args)` holds neither qualifier, it is the result. |
| Sanitizers.IsNamespaceColon | pkg/nuclide-cquery-lsp-rpc/lib/outline/sanitizers.js:69-71 | At a colon of the text, the result is true exactly when that colon closes a `::`. An index of 0 or less, or past the length of the text, gives false, because the character read there is `undefined`. At the length itself the last character is read. |
| Sanitizers.ArgumentFreeIsStopCondition | pkg/nuclide-cquery-lsp-rpc/lib/outline/sanitizers.js:42-45 | `ArgumentFree` (no colon at all, or the last colon preceded by a colon) is exactly the source's stop test. |
| Sanitizers.RemoveObjcFunctionArguments | pkg/nuclide-cquery-lsp-rpc/lib/outline/sanitizers.js:41-47 | The result is a prefix of the input that meets the stop condition `ArgumentFree`. Each recursive call is on the name cut just before its last colon, a strictly shorter name. |
| Sanitizers.RemoveObjcFunctionArgumentsCutsAt | pkg/nuclide-cquery-lsp-rpc/lib/outline/sanitizers.js:42-46 | At a last colon that is not part of `::`, the result is that of the name cut just before that colon. |
| Sanitizers.KeywordColonPrefixes | pkg/nuclide-cquery-lsp-rpc/lib/outline/sanitizers.js:41-47 | A prefix that still reaches past a keyword colon is not argument-free. |
| Sanitizers.RemoveObjcFunctionArgumentsIsLongestStablePrefix | pkg/nuclide-cquery-lsp-rpc/lib/outline/sanitizers.js:41-47 | The result is a prefix of the input and is argument-free. No longer prefix of the input is argument-free. |
| Sanitizers.RemoveObjcFunctionArgumentsFixedPoints | pkg/nuclide-cquery-lsp-rpc/lib/outline/sanitizers.js:42-45 | A name is returned unchanged if and only if it is argument-free. |
| Sanitizers.RemoveObjcFunctionArgumentsKeepsScopedNames | pkg/nuclide-cquery-lsp-rpc/lib/outline/sanitizers.js:42-45 | A name with no colon, or whose last colon closes a `::`, is returned unchanged. |
| Sanitizers.RemoveObjcFunctionArgumentsIdempotent | pkg/nuclide-cquery-lsp-rpc/lib/outline/sanitizers.js:41-47 | Applying the stage twice is the same as applying it once. |
| SanitizerExamples.KeywordArgumentsExample | pkg/nuclide-cquery-lsp-rpc/lib/outline/sanitizers.js:41-47 | `foo:bar:baz:` → `foo`. |
| SanitizerExamples.ScopedNameExample | pkg/nuclide-cquery-lsp-rpc/lib/outline/sanitizers.js:41-47 | `Namespace::Class::method` is kept. |
| Sanitizers.ReplaceAll | pkg/nuclide-cquery-lsp-rpc/lib/outline/sanitizers.js:37 | A global literal replace leaves a string without the pattern unchanged. `ReplaceAllAtFirst` gives the result occurrence by occurrence. |
| Sanitizers.ReplaceAllAtFirst | pkg/nuclide-cquery-lsp-rpc/lib/outline/sanitizers.js:37-38 | For `a` + `pat` + `b`, where the pattern starts nowhere inside `a`, the result is `a`, then `rep`, then the replace applied to `b`. The first occurrence becomes the replacement, and scanning resumes after it. |
| Sanitizers.ReplaceAllKeepsPrefix | pkg/nuclide-cquery-lsp-rpc/lib/outline/sanitizers.js:37-38 | A leading part in which the pattern starts nowhere is kept unchanged before the replace of the rest. |
| Sanitizers.ReplaceAllAvoids | pkg/nuclide-cquery-lsp-rpc/lib/outline/sanitizers.js:36-38 | After a global replace, a marker is absent from the result when two things hold: the marker is the pattern or was absent before, and the replacement cannot put it back. |
| Sanitizers.SanitizeAnonymousKeywords | pkg/nuclide-cquery-lsp-rpc/lib/outline/sanitizers.js:35-39 | The result contains neither `(anon)` nor `(anonymous namespace)`. A name with neither marker is unchanged. |
| Sanitizers.AnonPrefixRewritten | pkg/nuclide-cquery-lsp-rpc/lib/outline/sanitizers.js:35-39 | A name `(anon)` + `rest`, with neither marker in `rest`, becomes `namespace` + `rest`. |
| Sanitizers.ShortMarkerNotInLong | pkg/nuclide-cquery-lsp-rpc/lib/outline/sanitizers.js:37-38 | `(anon)` never occurs inside or across the end of `(anonymous namespace)`, so the first replace leaves the longer marker intact. |
| Sanitizers.AnonymousNamespacePrefixRewritten | pkg/nuclide-cquery-lsp-rpc/lib/outline/sanitizers.js:35-39 | A name `(anonymous namespace)` + `rest`, with neither marker in `rest`, becomes `anonymous_namespace` + `rest`. |
| CodeActions.ActionsToMessage | modules/atom-ide-ui/pkg/atom-ide-code-actions/lib/CodeActionManager.js:31-48 | One solution per action, in order. Solution `i` has action `i`'s title, the location's position, and `apply` bound to action `i`. The message has the given location, excerpt `Select an action`, severity `info` and kind `action`. |
| CodeActions.ActionsToMessageKeepsActions | modules/atom-ide-ui/pkg/atom-ide-code-actions/lib/CodeActionManager.js:36-40 | The actions bound to the solutions are exactly the input actions, in order. |
| CodeActions.IsActionableSelection | modules/atom-ide-ui/pkg/atom-ide-code-actions/lib/CodeActionManager.js:132-137 | A selection passes the filter if and only if its start and end points differ. |
| CodeActions.ProvidersForEditor | modules/atom-ide-ui/pkg/atom-ide-code-actions/lib/CodeActionManager.js:86-88 | Never more providers than are registered, and every one returned applies to the editor. |
| CodeActions.ProvidersForEditorFromRegistry | modules/atom-ide-ui/pkg/atom-ide-code-actions/lib/CodeActionManager.js:86-88 | A registration is returned if and only if it is registered and applies to the editor. |
| CodeActions.ProvidersForEditorAppend | modules/atom-ide-ui/pkg/atom-ide-code-actions/lib/CodeActionManager.js:86-88 | The providers for a concatenated registry are those of the first part, followed by those of the second. |
| CodeActions.FlattenAppend | modules/atom-ide-ui/pkg/atom-ide-code-actions/lib/CodeActionManager.js:93 | Flattening a concatenation is concatenating the flattenings. |
| CodeActions.AllCodeActionsAfterRegistration | modules/atom-ide-ui/pkg/atom-ide-code-actions/lib/CodeActionManager.js:85-93 | One more registration appends its provider's actions, when it applies, after those of all earlier registrations. |
| CodeActions.QueriesOnlyRegistered | modules/atom-ide-ui/pkg/atom-ide-code-actions/lib/CodeActionManager.js:86-91 | A handle not in the registry is never queried. |
| CodeActions.WithoutHandle | modules/atom-ide-ui/pkg/atom-ide-code-actions/lib/CodeActionManager.js:65 | After a provider's registration is disposed, no registration left has its handle. |
| CodeActions.WithoutHandleFromRegistry | modules/atom-ide-ui/pkg/atom-ide-code-actions/lib/CodeActionManager.js:65 | Disposing keeps exactly the registrations with other handles. |
| CodeActions.WithoutHandleSorted | modules/atom-ide-ui/pkg/atom-ide-code-actions/lib/CodeActionManager.js:65 | Disposing keeps the remaining registrations in registration order. |
| CodeActions.CodeActionManager.constructor | modules/atom-ide-ui/pkg/atom-ide-code-actions/lib/CodeActionManager.js:55-58 | An empty registry, no delegate, and the selection subscription as the only held disposable. |
| CodeActions.CodeActionManager.AddProvider | modules/atom-ide-ui/pkg/atom-ide-code-actions/lib/CodeActionManager.js:64-68 | Appends the provider under a fresh handle and returns its disposable. That disposable is added to the held ones. Nothing else changes. |
| CodeActions.CodeActionManager.RemoveProvider | modules/atom-ide-ui/pkg/atom-ide-code-actions/lib/CodeActionManager.js:65-67 | The registration disposable's effect: the registry loses that handle. The held disposables and the delegate are unchanged. |
| CodeActions.CodeActionManager.ConsumeIndie | modules/atom-ide-ui/pkg/atom-ide-code-actions/lib/CodeActionManager.js:70-78 | Registers the linter as `Code Actions`, holds and stores its delegate, and returns a fresh, not yet disposed disposer for it. The registry is unchanged. |
| CodeActions.IndieDisposable.Dispose | modules/atom-ide-ui/pkg/atom-ide-code-actions/lib/CodeActionManager.js:74-77 | The first call drops the delegate from the held disposables and clears the manager's delegate, whichever delegate is current. Later calls change nothing. |
| CodeActions.CodeActionManager.GenAllCodeActions | modules/atom-ide-ui/pkg/atom-ide-code-actions/lib/CodeActionManager.js:80-94 | Queries each applicable provider once, in registry order, with the given range and diagnostics. Returns their actions concatenated, each provider's bundle in its own order. |
| CodeActions.CodeActionManager.CreateCodeActionFetcher | modules/atom-ide-ui/pkg/atom-ide-code-actions/lib/CodeActionManager.js:96-106 | Returns a fresh fetcher bound to this manager. |
| CodeActions.CodeActionFetcher.GetCodeActionForDiagnostic | modules/atom-ide-ui/pkg/atom-ide-code-actions/lib/CodeActionManager.js:98-104 | A diagnostic without a range gives no actions and no query. One with a range gives the actions for that range and `[diagnostic]`, and every query is made with exactly those. |
| CodeActions.CodeActionManager.SelectionChangedCalls | modules/atom-ide-ui/pkg/atom-ide-code-actions/lib/CodeActionManager.js:111-115 | Clears the delegate's messages exactly when there is a delegate, and makes no call otherwise. |
| CodeActions.CodeActionManager.SelectionSettled | modules/atom-ide-ui/pkg/atom-ide-code-actions/lib/CodeActionManager.js:142-161 | An empty selection or an unsaved buffer gives no query and no call. Otherwise the providers are queried with no diagnostics. A call happens exactly when there are actions and a delegate. Its one call is `setAllMessages` with the single message of those actions, whose solutions are non-empty. |

## Left out

- The reactive pipeline of `_selectionSubscriber` is not modelled: `observeActiveEditorsDebounced`, the `switchMap` chains and their cancellation, the 500 ms `fastDebounce`, `takeUntil` on editor destruction, and the early exit for a null active editor. It is event and timer concurrency. The model keeps its two sequential steps as `SelectionChangedCalls` (on every selection change) and `SelectionSettled` (once the debounce has fired).
- `async`/`Promise.all` in `actionsToMessage` and `_genAllCodeActions` is not modelled, including rejection propagation. Titles and provider results are taken as already resolved.
- The `ProviderRegistry` is not modelled beyond a sequence in registration order. Its grammar-scope matching is an opaque `appliesTo` predicate, and its priority ordering is not modelled.
- `CodeActionManager.dispose` is not modelled. It tears everything down through `UniversalDisposable`, whose internals are library code.
- Atom editor APIs are abstract inputs: a buffer path is an `Option`, and a selection is a `Range`. The side effects of `CodeAction.apply` and `getTitle` are not modelled.
- Regular expressions are modelled only for the patterns used, as literal string searches. Symbol names are assumed to contain no line terminators, because `.` does not match them in JavaScript.
- Sanitizers.StripQualifiers: it does not promise that every qualifier disappears. Like the source's single global pass, deleting one occurrence can join its neighbours into a new one, which is kept.
