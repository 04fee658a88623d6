# language_header: header-to-language mapping, modelled in Dafny

This project models the logic of the Drupal module `language_header`. The
module lets a site administrator map an HTTP request header name and value
to a site language. A language negotiation method then uses that mapping to
choose the language of a response.

It has two parts:

- **The administration form** (`NegotiationHeaderForm`). Each submitted row
  `(header_name, header_value, drupal_langcode)` becomes one entry of a PHP
  array keyed by `trim(name) + ":" + trim(value)`. A row whose name is
  `empty()` is dropped, and that check runs before trimming. A later row
  overwrites an earlier row with the same key, and the "new mapping" row comes
  last. The array is sorted with `ksort` and saved as the `map` of config
  `language_header.mappings`, but only if it is non-empty. The form shows
  the stored rows again by splitting each key with `explode(':', …)`.
- **The negotiation method** (`HttpHeader::getLangcode`). It walks the stored
  map in stored order and splits each key with `explode(':', …)`, keeping the
  first two pieces. It skips entries whose header the request does not carry.
  On the first entry whose value equals the request's value, it returns that
  entry's langcode and triggers the page-cache kill switch.

Files:

- `wrappers.dfy`: `Option`, which stands for a PHP value that may be NULL or FALSE.
- `php_strings.dfy`: the PHP built-ins the code relies on. These are `trim`,
  `empty`, `explode`/`implode` with a one-character delimiter, and the
  byte-wise order `ksort` uses on string keys. Keys always contain `:`, so they
  are never numeric strings and `ksort` compares them byte by byte.
- `mapping_table.dfy`: the stored array as a sequence of `(key, langcode)`
  entries. It also holds PHP's `$a[$k] = $v` (`Put`), `ksort` (`KSort`, an
  insertion sort) and the key split `list($name, $value) = explode(':', $key)`
  (`SplitKey`).
- `form.dfy`: `getMappingKey` (`MappingKey`), the collecting loops of
  `submitForm` (`Collected`), the rows `buildForm` pre-fills (`EditRows`), and
  the class `NegotiationHeaderForm`. The class has a `config` field, and its
  `SubmitForm` and `GetMappings` use it.
- `negotiation.dfy`: the first-match function `FirstMatch` and its lemmas, the
  kill switch as a ghost counter, and the class `HttpHeader` whose
  `GetLangcode` is the loop of the source.

Behaviour worth knowing about the code:

- There is no JSON:API/DELETE default-language rule. No such branch exists
  in `HttpHeader.php`.
- The kill switch fires only when an entry matches (`HttpHeader.php:44`). It
  does not fire on every call.
- A name is rejected only when it is `empty()` before trimming. A name made
  only of whitespace passes and gives a key that starts with `:`.
- `explode` has no limit. The decoded value is the text between the first and
  second `:`, and anything after a second `:` is dropped. The key is not split
  on the first colon only.

## Model

| member | source | states |
|---|---|---|
| `Form.MappingKey` | src/Form/NegotiationHeaderForm.php:190-197 | the key is FALSE exactly when header_name is empty() (missing, "" or "0"); a produced key is truthy and contains ':' |
| `Form.BlankNameAccepted` | src/Form/NegotiationHeaderForm.php:190-196 | the empty() check runs before trimming: a non-empty name of whitespace only is accepted and yields the key ":" + trim(value) |
| `Form.MappingKeyRoundTrip` | src/Form/NegotiationHeaderForm.php:194-196 | when neither trimmed field holds ':', splitting the produced key gives back (trim(name), trim(value)) |
| `Form.ColonInValueTruncated` | src/Form/NegotiationHeaderForm.php:97 | a trimmed value "a:b" comes back from the stored key as "a": the text after the second ':' is lost |
| `Form.CollectedKeys` | src/Form/NegotiationHeaderForm.php:152-164 | the collected keys are exactly the keys that some row produces, so rows without a key add nothing |
| `Form.LastWriteWins` | src/Form/NegotiationHeaderForm.php:155-164 | a key takes the langcode of the last row that produces it; the new-mapping row, processed last, overrides existing rows |
| `Form.DroppedRowIgnored` | src/Form/NegotiationHeaderForm.php:155-159 | a row with an empty() name changes nothing, wherever it stands among the rows |
| `Form.SavedTableKeyed` | src/Form/NegotiationHeaderForm.php:194-196 | every key of a table collected from rows holds ':', which the negotiator's split needs |
| `Form.NegotiationHeaderForm.SubmitForm` | src/Form/NegotiationHeaderForm.php:151-174 | when no row yields a key the config is left unchanged; otherwise the saved map is sorted by key and holds exactly the collected keys and langcodes |
| `Form.NegotiationHeaderForm.GetMappings` | src/Form/NegotiationHeaderForm.php:182-188 | the empty array while the config is new, the stored map otherwise |
| `Form.EditRows` | src/Form/NegotiationHeaderForm.php:95-97 | one pre-filled row per stored entry, in stored order, carrying the entry's langcode |
| `Form.ResubmitKeepsTable` | src/Form/NegotiationHeaderForm.php:96-97 | submitting the pre-filled rows unchanged, with an empty new row, collects the stored table again when each key re-encodes to itself |
| `Form.ProducedKeyStable` | src/Form/NegotiationHeaderForm.php:194-196 | a key made from a name and value that trim to colon-free text, with the name not "" or "0", re-encodes to itself after being shown in the form |
| `MappingTable.Put` | src/Form/NegotiationHeaderForm.php:157 | `$result[$key] = …` keeps keys unique, maps the key to the new langcode, leaves other entries in place, and appends only a new key |
| `MappingTable.InsertSorted` | src/Form/NegotiationHeaderForm.php:167 | inserting an entry with a new key into a sorted array keeps it sorted and adds exactly that key |
| `MappingTable.KSort` | src/Form/NegotiationHeaderForm.php:167 | ksort() returns the same entries, strictly ascending by key |
| `MappingTable.SortedTableUnique` | src/Form/NegotiationHeaderForm.php:167 | two sorted arrays with the same keys and langcodes are equal, so the saved table is fully determined by the rows |
| `MappingTable.StrictlySortedUnique` | src/Form/NegotiationHeaderForm.php:167 | a strictly sorted array has unique keys |
| `MappingTable.SplitKey` | src/Plugin/LanguageNegotiation/HttpHeader.php:37 | the name is the colon-free text before the first ':' and the value is the colon-free text up to the second ':' or the end |
| `MappingTable.SplitJoinedKey` | src/Form/NegotiationHeaderForm.php:196 | joining a colon-free name and value with ':' and splitting again gives them back |
| `MappingTable.SplitDropsAfterSecondColon` | src/Plugin/LanguageNegotiation/HttpHeader.php:37 | for a key "name:value:rest", the split is (name, value) and rest is ignored |
| `PhpStrings.Trim` | src/Form/NegotiationHeaderForm.php:194-195 | the result neither starts nor ends with a trim character |
| `PhpStrings.TrimKeepsMiddle` | src/Form/NegotiationHeaderForm.php:194-195 | trim() keeps a contiguous middle of its input and removes only trim characters around it |
| `PhpStrings.TrimLeftSuffix` | src/Form/NegotiationHeaderForm.php:194-195 | ltrim keeps a suffix and drops only a run of trim characters |
| `PhpStrings.TrimRightPrefix` | src/Form/NegotiationHeaderForm.php:194-195 | rtrim keeps a prefix and drops only a run of trim characters |
| `PhpStrings.TrimIdempotent` | src/Form/NegotiationHeaderForm.php:194-195 | trimming twice is trimming once |
| `PhpStrings.TrimAllTrimChars` | src/Form/NegotiationHeaderForm.php:194 | a string of trim characters only trims to "" |
| `PhpStrings.Explode` | src/Plugin/LanguageNegotiation/HttpHeader.php:37 | explode gives at least one piece, and no piece holds the delimiter |
| `PhpStrings.ExplodeSplits` | src/Plugin/LanguageNegotiation/HttpHeader.php:37 | explode gives more than one piece exactly when the input holds the delimiter |
| `PhpStrings.ImplodeExplode` | src/Plugin/LanguageNegotiation/HttpHeader.php:37 | joining the pieces of explode with the delimiter gives the input back |
| `PhpStrings.ExplodeImplode` | src/Plugin/LanguageNegotiation/HttpHeader.php:37 | exploding delimiter-free pieces joined with the delimiter gives the pieces back |
| `PhpStrings.LessIrreflexive` | src/Form/NegotiationHeaderForm.php:167 | the key order used by ksort is irreflexive |
| `PhpStrings.LessAsymmetric` | src/Form/NegotiationHeaderForm.php:167 | the key order used by ksort is asymmetric |
| `PhpStrings.LessTransitive` | src/Form/NegotiationHeaderForm.php:167 | the key order used by ksort is transitive |
| `PhpStrings.LessTotal` | src/Form/NegotiationHeaderForm.php:167 | any two distinct keys are ordered one way or the other |
| `LanguageNegotiation.NoMatchNoDecision` | src/Plugin/LanguageNegotiation/HttpHeader.php:36-51 | the scan returns NULL exactly when no entry's header is present with an equal value |
| `LanguageNegotiation.FirstMatchWins` | src/Plugin/LanguageNegotiation/HttpHeader.php:36-46 | a matching entry with no matching entry before it decides the langcode; later entries are not looked at |
| `LanguageNegotiation.DecisionFromMatchingEntry` | src/Plugin/LanguageNegotiation/HttpHeader.php:42-43 | a decision is the langcode of some matching entry, and no earlier entry matches |
| `LanguageNegotiation.AbsentHeaderIgnored` | src/Plugin/LanguageNegotiation/HttpHeader.php:38-40 | removing an entry whose header name the request lacks does not change the decision |
| `LanguageNegotiation.SortedLeastKeyWins` | src/Plugin/LanguageNegotiation/HttpHeader.php:36-46 | on a table saved in key order, the matching entry with the least key decides |
| `LanguageNegotiation.HttpHeader.GetLangcode` | src/Plugin/LanguageNegotiation/HttpHeader.php:30-52 | NULL without a language manager, request or stored array; otherwise the first match in stored order; the kill switch fires exactly once on a match and never otherwise |
| `LanguageNegotiation.KillSwitch.Trigger` | src/Plugin/LanguageNegotiation/HttpHeader.php:44 | each trigger() call adds one to the count of kill-switch triggers |

## Left out

- Drupal plumbing: `__construct`, `create`, `getFormId`, `getEditableConfigNames`, and `parent::buildForm`/`parent::submitForm`. These are framework glue.
- Form rendering in `buildForm`: render arrays, translation, and the language option groups built from the language manager. That service is not part of this model. Only the key split at line 97 is modelled (`EditRows`).
- Config storage: the config object is a field holding an optional table, and `setData`/`save` is an assignment to it. A saved config whose `map` is not an array cannot arise in the form model. The negotiator represents that case as `None`.
- `LanguageNegotiation.HttpHeader.GetLangcode` compares values with exact string equality. PHP's loose `==` also treats numeric strings as equal, for example `"1" == "01"`, and this model does not.
- `LanguageNegotiation.HttpHeader.GetLangcode` treats request headers as a plain dictionary. Symfony's `HeaderBag` ignores case in header names and can hold several values per name; neither is modelled.
- `LanguageNegotiation.HttpHeader.GetLangcode` requires every stored key to contain `:` whenever a lookup actually happens (a language manager is present, and both the request and the saved table exist). Without a colon, `list()` would read an undefined second piece. Keys built by the form always contain one (`Form.SavedTableKeyed`).
- The page-cache kill switch service is only a ghost counter of `trigger()` calls.
- `MappingTable.KSort` is an insertion sort, not PHP's hybrid sort. With unique keys every correct sort gives the same array (`MappingTable.SortedTableUnique`).
- `PhpStrings.Less` compares characters by code point. For UTF-8 text this is the same order as PHP's byte comparison.
- `submitForm` when the form value `mappings` is not an array: there is no row table then, and the model passes an empty sequence of rows.
