# Bootstrap form mixin and account admin actions, in Dafny

This project models the two parts of the jabber.at homepage (`hp`) that have
behaviour of their own:

- **The Bootstrap form mixin** (`hp/bootstrap/forms.py`). When a form is built, the mixin
  resolves the offset override. It writes the effective input and label column
  specs onto every field the form already has. It merges the `default_buttons`
  dicts of the class hierarchy in reversed method resolution order, and then the
  caller's `buttons`, with the last writer winning. `get_buttons` hands the merged
  `(name, descriptor)` pairs out in a stable sort. The sort key is the name's
  position in `button_order`, and a name that is not listed gets -1.
- **The account admin actions** (`hp/account/admin.py`). These are the `valid` and
  `usable` columns of a GPG key. They also include the `refresh` action, which
  refreshes every selected key, and the `resend` action, which queues one
  background task with all selected confirmation keys.

Modules:

- `Wrappers` (`wrappers.dfy`): `Option`, which stands for Python's `None`-or-value.
- `Sequences` (`sequences.dfy`): `IndexOf` (`list.index`) and `Dedup` (keep the first
  occurrence of each element).
- `OrderedMap` (`ordered_map.dfy`): a Python `dict` modelled as a sequence of pairs with
  unique keys. `Update` is `d[k] = v`, `UpdateAll` is `d.update(o)` and `MergeLayers`
  folds `update` over a list of dicts. `LastDefinition` is an independent reference
  definition of "the last layer that defines the key wins".
- `ButtonOrder` (`button_order.dfy`): `Rank` (the sort key), a stable insertion sort by
  rank, and its properties. These are permutation, sortedness, stability,
  uniqueness of the stable result, and idempotence.
- `BootstrapForms` (`bootstrap_forms.dfy`): `Init` (`__init__`), `GetButtons` and
  `GetOffsetColumns`, plus lemmas about them.
- `AccountAdmin` (`account_admin.dfy`): `Valid`, `Usable`, `Refresh` and `Resend`.

Outside collaborators become parameters:

- The keyserver refresh of one key (`obj.refresh()`) is a function from key to
  outcome. It is `Refreshed`, or `Failed` with the text of an `Exception`, or `Aborted`
  for a `BaseException` that is not an `Exception`, which the action does not catch.
- The clock (`timezone.now()`) is the parameter `now`.
- The background queue (`resend_confirmations.delay`) is a returned list of task calls.
- The fields that the base form constructor creates are an input to `Init`.
- Python's attribute lookup through the method resolution order is also an input.
  `FormClass` holds the resolved class attributes. Its `defaultButtons` holds, for each
  class in reversed MRO, the dict that `getattr(c, 'default_buttons', {})` yields.

Two consequences of the sort key are easy to miss:

- Names missing from `button_order` get -1, so they sort **before** every listed name.
- Among themselves, unlisted names keep their merge order, so the order in which
  `default_buttons` and the caller's `buttons` were merged shows in the output.

## Model

| member | source | states |
|---|---|---|
| `Sequences.IndexOf` | hp/bootstrap/forms.py:57 | `order.index(name)` is the first position holding the name: the element there is the name and no earlier element is |
| `Sequences.DedupFirstAppearanceOrder` | hp/bootstrap/forms.py:49-53 | the de-duplicated key list keeps each key at the position of its first appearance: keys come out in increasing order of first occurrence |
| `Sequences.DedupMembers` | hp/bootstrap/forms.py:49-53 | the de-duplicated key list holds exactly the input's keys, each once |
| `OrderedMap.Update` | hp/bootstrap/forms.py:51 | `d[k] = v` keeps keys unique, keeps the key order when `k` is present and appends `k` otherwise, and makes `k` map to `v` |
| `OrderedMap.UpdateLookupOther` | hp/bootstrap/forms.py:51 | `d[k] = v` leaves the value of every other key unchanged |
| `OrderedMap.UpdateAll` | hp/bootstrap/forms.py:51-52 | `d.update(o)` writes every pair of `o` into `d` in `o`'s order and keeps the keys unique; its key order and values are stated by `UpdateAllKeys` and `UpdateAllLookup` |
| `OrderedMap.UpdateAllKeys` | hp/bootstrap/forms.py:51-52 | after `d.update(o)` the key order is `d`'s keys followed by `o`'s new keys, each at its first appearance |
| `OrderedMap.UpdateAllLookup` | hp/bootstrap/forms.py:51-52 | after `d.update(o)` a key of `o` has `o`'s value, and every other key keeps `d`'s value or stays absent |
| `OrderedMap.UpdateAllConcat` | hp/bootstrap/forms.py:50-52 | updating with one dict and then another is the same as one update with all their pairs in sequence |
| `OrderedMap.MergeLayers` | hp/bootstrap/forms.py:49-52 | the merge of the reversed-MRO dicts, starting from `{}`, has unique keys; its keys and values are stated by `MergeLayersKeys` and `MergeLayersLookup` |
| `OrderedMap.MergeLayersIsOneUpdate` | hp/bootstrap/forms.py:49-52 | the layer-by-layer merge equals one `update` of `{}` with every layer's pairs, layer after layer |
| `OrderedMap.MergeLayersKeys` | hp/bootstrap/forms.py:49-53 | the merged keys are all layers' keys, each once, at the position of its first appearance across the layers |
| `OrderedMap.FlattenKeys` | hp/bootstrap/forms.py:49-52 | a key occurs among the layers' pairs exactly when some layer has it |
| `OrderedMap.MergeLayersLookup` | hp/bootstrap/forms.py:49-53 | last writer wins: a key's merged value is its value in the last layer that defines it (reference definition `LastDefinition`) |
| `OrderedMap.LastDefinitionDefined` | hp/bootstrap/forms.py:50-51 | some layer supplies a value for a key exactly when some layer has that key |
| `OrderedMap.LastDefinitionAt` | hp/bootstrap/forms.py:50-51 | the layer that defines a key, with no later layer defining it, decides the key's value |
| `ButtonOrder.Rank` | hp/bootstrap/forms.py:57 | the sort key is -1 exactly for unlisted names; otherwise it is the name's first position in the order |
| `ButtonOrder.SortPermutes` | hp/bootstrap/forms.py:57 | sorting is a permutation: the multiset of pairs is unchanged |
| `ButtonOrder.SortSorted` | hp/bootstrap/forms.py:57 | the sorted pairs have non-decreasing rank |
| `ButtonOrder.SortStable` | hp/bootstrap/forms.py:57 | the sort is stable: for every rank, the pairs of that rank keep their input order |
| `ButtonOrder.SortUnique` | hp/bootstrap/forms.py:57 | `Sort`, the model of `sorted(..., key=...)`, is the only possible result: any rank-sorted sequence that keeps the input order within every rank is the sort's output, so Python's stable sort produces the same result |
| `ButtonOrder.SortIdempotent` | hp/bootstrap/forms.py:57 | sorting a sorted sequence returns it unchanged, so sorting twice equals sorting once |
| `ButtonOrder.SortUniqueKeys` | hp/bootstrap/forms.py:57 | sorting a dict's items keeps every name unique |
| `ButtonOrder.SortKeys` | hp/bootstrap/forms.py:57 | sorting keeps the set of names |
| `ButtonOrder.InsertKeys` | hp/bootstrap/forms.py:57 | the names after one insertion step are the old names plus the inserted one |
| `ButtonOrder.UnlistedFirst` | hp/bootstrap/forms.py:57 | in sorted output no listed name comes before an unlisted one |
| `ButtonOrder.ListedStrictlyIncreasing` | hp/bootstrap/forms.py:56-57 | in sorted output with unique names, listed names appear in strictly increasing `button_order` position |
| `ButtonOrder.SortedWithSameRanksEqual` | hp/bootstrap/forms.py:57 | two rank-sorted sequences that agree on the pairs of every rank, in order, are equal |
| `BootstrapForms.SetInputColumns` | hp/bootstrap/forms.py:40-42 | every field gets the input columns; its name and label columns stay as they were |
| `BootstrapForms.SetLabelColumns` | hp/bootstrap/forms.py:45-47 | every field gets the label columns; its name and input columns stay as they were |
| `BootstrapForms.Init` | hp/bootstrap/forms.py:33-53 | offset is the argument when it is not `None`, else the class default; a truthy column argument is used, else the class default; a non-`None` spec is written on every field, a `None` spec leaves each field's value; input and label are independent; fields keep their names and number; merged buttons have unique names |
| `BootstrapForms.OffsetColumnsResolution` | hp/bootstrap/forms.py:33-42 | an offset argument of `""` replaces the class offset, while an input-columns argument of `""` falls back to the class default, or leaves the fields alone when that is `None` |
| `BootstrapForms.GetOffsetColumnsResult` | hp/bootstrap/forms.py:59-60 | `GetOffsetColumns` (`get_offset_columns`) of a built form returns the constructor's override when it is not `None`, and otherwise the class default |
| `BootstrapForms.NoColumnsLeaveFieldsAlone` | hp/bootstrap/forms.py:39-47 | when both effective column specs are `None` the fields come out identical |
| `BootstrapForms.ButtonPrecedence` | hp/bootstrap/forms.py:49-52 | a caller-supplied button overrides every class default; otherwise the last class in reversed MRO that defines the name supplies the descriptor |
| `BootstrapForms.MostDerivedDefinitionWins` | hp/bootstrap/forms.py:50-51 | a name defined by class `j` and by no later class or caller gets class `j`'s descriptor |
| `BootstrapForms.ButtonNames` | hp/bootstrap/forms.py:49-53 | the merged names are exactly those of the class defaults and the caller, each once, in first-appearance order |
| `BootstrapForms.GetButtons` | hp/bootstrap/forms.py:55-57 | the result is a permutation of the merged pairs with unique names; unlisted names precede listed ones; listed names are in strictly increasing `button_order` index; unlisted names keep their merge order |
| `BootstrapForms.GetButtonsIdempotent` | hp/bootstrap/forms.py:55-57 | re-sorting the output with the same key, or building a form from it, yields the same sequence |
| `BootstrapForms.MergeMixinOrEmpty` | hp/bootstrap/forms.py:22-28 | merging layers that are each `{}` or the mixin's dict gives the mixin's dict when some layer is the mixin's, and `{}` otherwise |
| `BootstrapForms.PlainLayersMerge` | hp/bootstrap/forms.py:22-28 | for every reversed MRO whose classes contribute only `{}` or the mixin's dict, with the mixin among them, and no caller buttons, the merge is the mixin's single submit button |
| `BootstrapForms.PlainMixinForm` | hp/bootstrap/forms.py:22-31 | every such form built without arguments shows `[submit: Submit/primary]`, has offset `col-sm-10 offset-sm-2` and untouched fields |
| `AccountAdmin.UsableIffValidAndUnexpired` | hp/account/admin.py:69-78 | relates the two columns `Valid` (`valid`) and `Usable` (`usable`): usable exactly when valid and either without expiry or expiring after `now`; without expiry, usable exactly when not revoked |
| `AccountAdmin.UsableImpliesValid` | hp/account/admin.py:69-78 | usable implies valid; an expiry at or before `now` makes a key unusable |
| `AccountAdmin.UsableEarlier` | hp/account/admin.py:73-78 | a key usable at some time was usable at every earlier time |
| `AccountAdmin.RefreshErrorsSplit` | hp/account/admin.py:82-87 | failures are isolated: a batch's messages are its parts' messages, in order |
| `AccountAdmin.RefreshErrorsPerFailure` | hp/account/admin.py:82-87 | one message per failing key: the count equals the failures, and the failure at position `i` gets its own `ImportError` message, with its fingerprint and error, after the messages of earlier failures |
| `AccountAdmin.AllRefreshedNoMessages` | hp/account/admin.py:82-87 | a selection in which no refresh fails produces no message |
| `AccountAdmin.Refresh` | hp/account/admin.py:81-87 | keys are refreshed in selection order, and an `Exception` from one key does not stop the next; the attempted keys are a prefix of the selection, the whole of it unless some key raises a `BaseException` that is not an `Exception`, in which case they end at the first such key; the messages are those of the reference definition `RefreshErrors` for the attempted keys, one `Error importing <fingerprint>: <error>` per failing key |
| `AccountAdmin.Resend` | hp/account/admin.py:99-100 | exactly one call of `resend_confirmations`, whose arguments are the selected primary keys in selection order |
| `AccountAdmin.ResendBatches` | hp/account/admin.py:99-100 | one call with two selections passes the concatenation of their keys; an empty selection still makes one call with no arguments |

## Left out

- Method resolution order and attribute lookup are Python's. `FormClass` takes them as
  resolved: the button order, the column defaults and the per-class `default_buttons`
  layers are inputs, not computed from a class graph.
- The fields that `super().__init__` builds are an input. Field attributes other than the
  name and the two column specs are not modelled, because the mixin does not touch them.
- Passing `buttons` to the base constructor before popping it (forms.py:37 against 52) is
  not modelled. Django would reject the unexpected keyword; the model applies the
  caller's buttons last, as the code intends.
- Translation (`ugettext_lazy`) is not modelled. Button text and message text are plain
  strings.
- `log.exception` in `refresh` is not modelled. It writes to a log and does not affect
  the outcome.
- The Django messages framework and the request are not modelled. The messages are
  returned as a list.
- `AccountAdmin.Refresh`: the outcome of `obj.refresh()` is modelled as a function of the key alone.
  Keyserver I/O, and outcomes that depend on timing or on earlier refreshes, are outside
  the model.
- What the `resend_confirmations` task does is not modelled.
- Declarative admin configuration is not modelled, because it has no behaviour of its
  own. This covers `list_display`, `list_filter`, `fieldsets`, `ordering`,
  `search_fields`, `readonly_fields`, `list_select_related`, the `@admin.register`
  decorators and `admin.site.unregister(Group)`.
- Sending registrations, blocking users, normalising email on save and custom list
  filters are not in `hp/account/admin.py`, so they are not modelled.
- `BootstrapForms.GetButtons` requires the buttons to have unique names. A Python dict
  always does, and every form that `Init` builds satisfies this.
- Python's `sorted` (Timsort) is modelled as an insertion sort. `ButtonOrder.SortUnique`
  shows that every stable sort by the same key gives the same output.
