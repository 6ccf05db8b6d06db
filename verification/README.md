# Umbraco content type controller, modelled in Dafny

This project models the content type API controller of Umbraco CMS
(`src/Umbraco.Web/Editors/ContentTypeController.cs`). The controller does four things:

- It lists and fetches content types.
- It creates and updates them (`PostSave`). An update merges the submitted fields onto the stored type. A create derives an empty alias from the name.
- It decides which content types may be created under a placement context (`GetAllowedChildren`). The context is the recycle bin, the virtual root or an existing content item.
- It translates every outward name and description. A label that starts with `#` is a key into the culture dictionary. The controller creates that dictionary lazily, once per instance.

Modules, leaves first:

- `responses.dfy` (`Responses`): `Option` stands for a C# null. `Response` is a value or the `NotFound` (404) an action throws.
- `labels.dfy` (`Labels`): label translation as a pure function `Translate` over a dictionary value. This module also holds .NET's `char.IsWhiteSpace` / `string.IsNullOrWhiteSpace` and the `IfNullOrWhiteSpace` fallback.
- `content_types.dfy` (`ContentTypes`): the records and the AutoMapper maps. The records are `ContentType`, `ContentItem`, `ContentTypeBasic` and `ContentTypeDisplay`. Each map is written as an explicit copy of the named fields. The module also has the store lookups (`Find`, `ContentTypesByIds`), the create-side preparation of a submission (`PrepareCreate`) and translate-each (`TranslateAll`).
- `placement.dfy` (`Placement`): the allowed-children rule as the pure function `AllowedChildTypes`, with its soundness, exactness and fallback lemmas.
- `services.dfy` (`Services`): the collaborators the controller calls, as classes with mutable state. These are the content type store (its `Save` assigns ids), the content store and the culture dictionary factory. Their query functions (`ContentTypeService.GetContentType`, `GetAllContentTypes`, `GetAllContentTypesByIds`, `ContentService.GetById`) are bodies only. They forward to `Find`, the stored sequence, `ContentTypesByIds` and a map lookup, whose contracts carry their meaning. Likewise `Labels.IsWhiteSpace` and `Labels.IsNullOrWhiteSpace` are bodies only; `AllWhiteSpace` and `Translate` state the blank test.
- `controller.dfy` (`Controller`): `ContentTypeController` as a class. It keeps the lazily cached dictionary in a field, with a ghost counter of created dictionaries. Its actions are methods proved against the pure functions above. The translate loop overwrites an array of list entries in place, as the source's `foreach` does.

Collaborators whose code is not shown become parameters or abstract state:

- `ToSafeAlias` is a function parameter of `PostSave`. Every property is proved for every alias transform.
- The dictionary the factory creates is the factory's `current` field.
- The store's id assignment is the `nextId` field.

`Constants.System.Root` (-1) and `Constants.System.RecycleBinContent` (-20) are Umbraco.Core constants. Umbraco.Core is not part of this model, so the two values appear here as constants.

`GetEmpty` builds `new ContentType(-1)`. In Umbraco.Core that argument is the parent id, so the template has parent -1 (the root) and the unsaved id 0, and submitting it takes the create path.

## Model

| member | source | states |
|---|---|---|
| `Labels.AllWhiteSpace` | src/Umbraco.Web/Editors/ContentTypeController.cs:221 | true exactly when every character is .NET white space (the blank test behind `IfNullOrWhiteSpace`) |
| `Labels.Translate` | src/Umbraco.Web/Editors/ContentTypeController.cs:210-222 | null stays null; unmarked text is returned unchanged; for `#key` the result is the dictionary entry when present and not blank, otherwise `key` with the marker stripped |
| `Labels.TranslateBlankOnlyForBlankKey` | src/Umbraco.Web/Editors/ContentTypeController.cs:220-221 | a marked label translates to blank text only when it falls back to its own blank key |
| `Labels.MarkedKeyRoundTrip` | src/Umbraco.Web/Editors/ContentTypeController.cs:220-221 | with no usable entry, translating `"#" + key` gives back `key` |
| `Labels.TranslateUsesOnlyOwnKey` | src/Umbraco.Web/Editors/ContentTypeController.cs:221 | translation depends only on the dictionary entry for the label's own key |
| `Labels.IsMarked` | src/Umbraco.Web/Editors/ContentTypeController.cs:217 | a label is a dictionary reference exactly when it is non-null and has `#` as a prefix |
| `Labels.Lookup` | src/Umbraco.Web/Editors/ContentTypeController.cs:221 | the dictionary indexer: an entry exactly when the key is present, and then that key's text |
| `Labels.IfNullOrWhiteSpace` | src/Umbraco.Web/Editors/ContentTypeController.cs:221 | the looked-up text unless it is null or blank, else the fallback key; a blank answer is always the fallback |
| `ContentTypes.ToInt32` | src/Umbraco.Web/Editors/ContentTypeController.cs:173 | a null id converts to 0; a present id converts to itself |
| `ContentTypes.IsUpdate` | src/Umbraco.Web/Editors/ContentTypeController.cs:173-175 | a submission is an update exactly when its id is present and positive; a null id means create |
| `ContentTypes.NewContentType` | src/Umbraco.Web/Editors/ContentTypeController.cs:76 | `new ContentType(parentId)`: id 0 (unsaved), the given parent, empty alias, no name or description, not allowed at the root, no children |
| `ContentTypes.ToBasic` | src/Umbraco.Web/Editors/ContentTypeController.cs:108 | the list entry copies id, parent id, alias, name and description of the type |
| `ContentTypes.ToDisplay` | src/Umbraco.Web/Editors/ContentTypeController.cs:70 | the editor view copies every modelled field, with the type's id as the view's id; the view is update-shaped exactly when the id is positive |
| `ContentTypes.MergeOnto` | src/Umbraco.Web/Editors/ContentTypeController.cs:182 | the merged type keeps the found type's id and, viewed again, shows exactly the submitted fields |
| `ContentTypes.NewFromDisplay` | src/Umbraco.Web/Editors/ContentTypeController.cs:198 | the new type takes the converted submitted id (non-positive exactly on the create path) and, viewed again, shows exactly the submitted fields |
| `ContentTypes.TranslateBasic` | src/Umbraco.Web/Editors/ContentTypeController.cs:155-156 | one entry's name and description replaced by their translations, every other field kept |
| `ContentTypes.PrepareCreate` | src/Umbraco.Web/Editors/ContentTypeController.cs:191-195 | the create path clears the id; an empty alias becomes `ToSafeAlias(Name)`, a non-empty alias is kept, and nothing else changes |
| `ContentTypes.PrepareCreateIdempotent` | src/Umbraco.Web/Editors/ContentTypeController.cs:191-195 | preparing an already prepared submission changes nothing, whatever alias the transform gives |
| `ContentTypes.UpdateRoundTrip` | src/Umbraco.Web/Editors/ContentTypeController.cs:182-187 | merging a submission onto the found type and mapping back returns the submission unchanged (the maps being field copies; see Left out) |
| `ContentTypes.CreateRoundTrip` | src/Umbraco.Web/Editors/ContentTypeController.cs:198-204 | a new type built from a submission maps back to that submission with the assigned id |
| `ContentTypes.UpdateChangesOnlySubmittedFields` | src/Umbraco.Web/Editors/ContentTypeController.cs:182 | resubmitting a stored type with only a new description changes only the description; the alias stays |
| `ContentTypes.TranslateAll` | src/Umbraco.Web/Editors/ContentTypeController.cs:110-115 | one entry per input entry, in order, with name and description translated and every other field untouched |
| `ContentTypes.ToBasics` | src/Umbraco.Web/Editors/ContentTypeController.cs:151 | one list entry per type, in order, each the mapped view of that type |
| `ContentTypes.Find` | src/Umbraco.Web/Editors/ContentTypeController.cs:64-68 | null exactly when no stored type has the id; otherwise the first stored type with that id |
| `ContentTypes.ContentTypesByIds` | src/Umbraco.Web/Editors/ContentTypeController.cs:148 | no more types than requested ids, each one stored and requested |
| `ContentTypes.ContentTypesByIdsComplete` | src/Umbraco.Web/Editors/ContentTypeController.cs:148 | the type of every stored, requested id is included |
| `ContentTypes.ContentTypesByIdsAtMostOncePerId` | src/Umbraco.Web/Editors/ContentTypeController.cs:148 | a type appears no more often than its id is requested |
| `ContentTypes.ContentTypesByIdsInOrder` | src/Umbraco.Web/Editors/ContentTypeController.cs:148 | when every requested id is stored, exactly the types for those ids, in the requested order |
| `ContentTypes.FindUnique` | src/Umbraco.Web/Editors/ContentTypeController.cs:178 | with unique ids, the lookup of a stored id returns the one type carrying it |
| `ContentTypes.Replace` | src/Umbraco.Web/Editors/ContentTypeController.cs:183 | the stored sequence after saving an existing type: same length, and every position keeps its id |
| `ContentTypes.ReplaceStores` | src/Umbraco.Web/Editors/ContentTypeController.cs:182-183 | saving a merged type keeps ids unique, stores the new record under its id and leaves every other id's record as it was |
| `Placement.AnyAllowedAsRoot` | src/Umbraco.Web/Editors/ContentTypeController.cs:133 | true exactly when some stored type is flagged `AllowedAsRoot` |
| `Placement.WhereAllowedAsRoot` | src/Umbraco.Web/Editors/ContentTypeController.cs:134 | exactly the flagged types, each as many times as in the store, as a subsequence in store order |
| `Placement.RootTypes` | src/Umbraco.Web/Editors/ContentTypeController.cs:128-135 | with a flagged type, exactly the flagged types with their store multiplicities, in store order; with none, all types |
| `Placement.AllowedChildTypes` | src/Umbraco.Web/Editors/ContentTypeController.cs:122-149 | recycle bin: nothing; root: the root rule; item: NotFound exactly when the item is missing, nothing when its type allows no children, otherwise only stored types it lists |
| `Placement.PlacementIsSound` | src/Umbraco.Web/Editors/ContentTypeController.cs:124-149 | every offered type is stored and permitted: flagged (or no type is) at the root, listed by the item's type under an item, never in the recycle bin |
| `Placement.ItemPlacementExact` | src/Umbraco.Web/Editors/ContentTypeController.cs:138-148 | under an item whose listed ids are all stored, the offered types are those ids' types in listed order |
| `Placement.RootFallback` | src/Umbraco.Web/Editors/ContentTypeController.cs:132-135 | with no flagged type the root offers every type; in all cases the root offers a subsequence of the store |
| `Services.ContentTypeService.constructor` | src/Umbraco.Web/Editors/ContentTypeController.cs:166 | an empty store whose invariant holds and whose first save gets id 1 |
| `Services.CultureDictionaryFactory.CreateDictionary` | src/Umbraco.Web/Editors/ContentTypeController.cs:230 | the external factory returns the dictionary for the culture currently in effect |
| `Services.ContentTypeService.Save` | src/Umbraco.Web/Editors/ContentTypeController.cs:183 | the store's assumed contract: a stored id is replaced in place, any other record is appended under a fresh positive id, and the saved record can be looked up |
| `Controller.ContentTypeController.constructor` | src/Umbraco.Web/Editors/ContentTypeController.cs:46-49 | a new controller has no culture dictionary yet and has created none |
| `Controller.ContentTypeController.GetCultureDictionary` | src/Umbraco.Web/Editors/ContentTypeController.cs:224-231 | the first access creates and caches the factory's dictionary; later accesses return the cached one; at most one dictionary is ever created |
| `Controller.ContentTypeController.TranslateItem` | src/Umbraco.Web/Editors/ContentTypeController.cs:210-222 | returns `Translate` with the dictionary in effect; unmarked text and null leave the controller untouched (no dictionary is created) |
| `Controller.ContentTypeController.TranslateInPlace` | src/Umbraco.Web/Editors/ContentTypeController.cs:153-157 | the array afterwards holds the translate-each of its old contents; the cached dictionary is kept |
| `Controller.ContentTypeController.GetById` | src/Umbraco.Web/Editors/ContentTypeController.cs:62-72 | NotFound exactly when no stored type has the id; otherwise the view of the stored type with that id |
| `Controller.ContentTypeController.GetEmpty` | src/Umbraco.Web/Editors/ContentTypeController.cs:74-79 | an unsaved template under the root (its submission is a create), with empty alias, no name and no children |
| `Controller.ContentTypeController.GetAll` | src/Umbraco.Web/Editors/ContentTypeController.cs:105-116 | every stored type's list entry, in store order, translated |
| `Controller.ContentTypeController.GetAllowedChildren` | src/Umbraco.Web/Editors/ContentTypeController.cs:122-160 | NotFound when the placement rule says so, otherwise the translated list entries of the allowed types; the recycle bin reads and changes nothing |
| `Controller.ContentTypeController.PostSave` | src/Umbraco.Web/Editors/ContentTypeController.cs:163-207 | id > 0 with no stored type: NotFound and nothing saved; id > 0: the merge replaces the stored type and, the maps being field copies, the submission comes back; otherwise the prepared submission is appended under a fresh positive id and comes back with that id; every answer is the view of what is stored |

## Left out

- `GetPropertyTypeScaffold` is not modelled. It only combines foreign calls: the data type service, the property editor resolver and the editor's stored-to-editor configuration conversion.
- `GetAllPropertyTypeAliases` is not modelled. It passes a service call straight through.
- AutoMapper maps copy only the fields named here: id, parent id, alias, name, description, allowed-as-root and the allowed child ids. Property groups, property types, icons, thumbnails and templates are not modelled.
- The entries of `AllowedContentTypes` keep only their id. Their sort order and alias are not modelled.
- `PostSave` updates the submitted object in place and returns that same object. The model returns the updated value, so object identity (aliasing) is not captured. Likewise, `GetAll` and `GetAllowedChildren` overwrite fields of freshly mapped objects. The model overwrites values in an array of entries.
- `GetAll` returns a lazy `Select`. Translation happens whenever the caller enumerates it, possibly more than once. The model translates once, when the action runs.
- The submitted id is modelled as the value `Convert.ToInt32` produces from it, or null. `Convert.ToInt32` also accepts a long, a numeric string or a double (rounded), and it throws for a non-numeric string, for an object that is not convertible, and for a value outside the Int32 range. Those conversions, exception paths and the Int32 range are not modelled.
- A null alias and an empty alias are both modelled as "". `IsNullOrEmpty` treats them alike, and the update path copies whichever was submitted.
- `StartsWith("#")` is culture-sensitive in .NET and may skip ignorable characters. The model tests the first character ordinally.
- `ToSafeAlias` is not modelled; it is a parameter that may be any function. Its result for a null name is whatever that function gives.
- Persistence is abstracted away. `ContentTypeService.Save` and its validation, storage and events are reduced to "a stored id is replaced, anything else gets the next positive id". Alias and property-alias conflicts are not detected; the source leaves them as TODOs.
- `GetAllContentTypes(ids)` is not part of this model. It is assumed to return the stored type for each requested id, in the requested order, skipping ids that have no stored type.
- The `ContentType(parentId)` constructor is not part of this model. Its defaults (empty alias, no name or description, not allowed at the root, no children) are assumed.
- UpdateRoundTrip, CreateRoundTrip: the maps are modelled as exact field copies, so mapping the saved type back is the identity on the modelled fields by construction. Any normalisation by the entity's property setters or by `Save` (of the alias, for example) is not modelled.
- PostSave: the map-back at lines 186 and 203 exists to pick up what the entity and `Save` changed. The model's `Save` changes only the id, so on update the answer equals the submission, and on create it equals the prepared submission plus the new id. Normalisation of other fields during the save is not modelled.
- Concurrency between requests, HTTP status codes and exceptions beyond `NotFound`, `UmbracoContext.Current`, the global resolvers, routing attributes and the security TODOs are not modelled.
