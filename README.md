# Filter translator of the GraphQL API

This project models `genOptsFromQuery` from `src/util/queryHelpers.ts`. The
GraphQL resolvers use it to turn the filter object a client passes as query
arguments into TypeORM find-options. The function makes one `for...in` pass over
the caller's `where` object:

- it deletes every entry whose value is `null` or `undefined`, in place;
- it collects each object-typed key as a relation to load eagerly;
- it counts every surviving key, object-typed or not, as a seen argument.

After the pass it raises a `GraphQLError` coded "Bad Request" when arguments are
required and none was seen. Otherwise it returns `{ where }`, the caller's own
pruned object, and adds `relations` only when at least one was collected.

The model is in two files:

- `wrappers.dfy` holds `Option` and `Result`.
- `query_helpers.dfy` holds everything else:
  - the value tag `Value` (`Null | Undefined | Scalar | Obj`);
  - the immutable view of an object, `Filter` (its keys in enumeration order, plus a key-to-value map);
  - the mutable object `WhereMap`, a class whose `Delete` is the JavaScript `delete`;
  - the method `GenOptsFromQuery`, which runs the source's loop over `WhereMap`.

The method is proved against the pure specification `GenOpts`. Its final object
is `Prune` of the initial one, and its outcome and relations are those of
`GenOpts`. The lemmas about `Prune`, `KeptKeys`, `Relations`, `SeenArgs` and
`GenOpts` state what the source promises.

`for...in` visits the keys the object had when the loop started. The loop only
ever deletes the key it is visiting, so iterating over a snapshot of the keys
visits exactly the same keys in the same order. A JavaScript object cannot hold
a key twice, which makes the `!relations.includes(key)` guard always true. The
method keeps the guard, and `LoopStep` proves that it never rejects a key.

## Model

| member | source | states |
|---|---|---|
| QueryHelpers.GenOptsFromQuery | src/util/queryHelpers.ts:4-38 | The caller's object is left well formed and equal to `Prune` of its initial value. The call fails exactly when `GenOpts` fails, and then with the "Bad Request" error. On success the returned `where` is the caller's own object (the same reference), and `relations` is the one `GenOpts` computes. |
| QueryHelpers.WhereMap.Delete | src/util/queryHelpers.ts:9 | After `delete where[key]` the object is still well formed, and it is its old view without `key`. |
| QueryHelpers.WithoutSpec | src/util/queryHelpers.ts:9 | Deleting a key leaves a well-formed object. The key is gone from both the key list and the map. Every other key stays, with its value, and the remaining keys keep their order. |
| QueryHelpers.LoopStep | src/util/queryHelpers.ts:7-19 | One loop turn. The visited key still holds its original value. A null or undefined value deletes the key and changes neither count. Any other value leaves the object unchanged and adds one seen argument. An object value is not yet among the relations and is appended to them. A scalar value leaves the relations unchanged. |
| QueryHelpers.VisitedStep | src/util/queryHelpers.ts:8-11 | Visiting a null or undefined key deletes exactly that key from the partly pruned object. Visiting any other key leaves the object as it is. |
| QueryHelpers.VisitedEnd | src/util/queryHelpers.ts:7-19 | Once every key is visited, the object is the pruned filter. |
| QueryHelpers.PruneSpec | src/util/queryHelpers.ts:7-19 | The pruned object is well formed. A key keeps its entry iff its value was neither null nor undefined, and it keeps that value. No remaining key is null or undefined. The surviving keys keep their enumeration order. |
| QueryHelpers.KeptKeysMembership | src/util/queryHelpers.ts:8-10 | A key survives iff it was in the object and its value is neither null nor undefined. |
| QueryHelpers.KeptKeysDistinct | src/util/queryHelpers.ts:8-10 | The surviving keys are still distinct. |
| QueryHelpers.KeptKeysInOrder | src/util/queryHelpers.ts:7-19 | The surviving keys appear in their original enumeration order. |
| QueryHelpers.RelationsMembership | src/util/queryHelpers.ts:13-17 | A key is a relation iff it survived and its value is object-typed. |
| QueryHelpers.RelationsDistinct | src/util/queryHelpers.ts:14-16 | The relations contain no duplicate. |
| QueryHelpers.RelationsInOrder | src/util/queryHelpers.ts:13-17 | The relations appear in the object's enumeration order. |
| QueryHelpers.SeenArgsCountsKept | src/util/queryHelpers.ts:7-19 | The seen-argument count equals the number of keys whose value is neither null nor undefined. |
| QueryHelpers.SeenArgsZeroIff | src/util/queryHelpers.ts:8-18 | No argument is seen iff every key is null or undefined. |
| QueryHelpers.GenOptsFailsIff | src/util/queryHelpers.ts:21-27 | The translator fails iff arguments are required and every key is null or undefined. It then fails with message "At least one argument is required" and code "Bad Request". Without `requireArgs` it never fails. |
| QueryHelpers.AllAbsentYieldsEmptyWhere | src/util/queryHelpers.ts:21-31 | With `requireArgs` false, an empty or all-null object gives an empty `where` and no `relations`. |
| QueryHelpers.RelationsEmptyIff | src/util/queryHelpers.ts:33-35 | The collected relations are empty iff no key holds an object. |
| QueryHelpers.RelationsFieldIff | src/util/queryHelpers.ts:33-35 | On success, `relations` is set iff some key holds an object. When set, it is never the empty list. |
| QueryHelpers.PruneIdempotent | src/util/queryHelpers.ts:8-10 | Pruning an already pruned object changes nothing. |
| QueryHelpers.GenOptsIdempotent | src/util/queryHelpers.ts:7-19 | Running the translator again on the object it pruned deletes nothing. It gives the same `where`, the same relations and the same outcome. |

## Left out

- `src/server.ts` is not part of this model. It only wires things together:
  - the data-source configuration read from environment variables;
  - the dependency container;
  - the schema build;
  - the HTTP server and its per-request random id.
- The TypeORM types `FindManyOptions`/`FindOptionsWhere` and the `GraphQLError` class are not modelled. The result is a plain record, `FindOptions`. The error is a value, `QueryError`, carrying the message and the `Code` extension string.
- Raising the error is modelled as returning `Failure`. The deletions done before the throw are kept, as in the source.
- A JavaScript value is reduced to its kind: `Null`, `Undefined`, `Scalar` (string, number, boolean and any other non-object) or `Obj`. Arrays, Dates and nested filters are all `Obj`. `typeof null === 'object'` cannot arise, because null values are deleted first.
- `for...in` also visits inherited enumerable properties; the model only covers an object's own keys.
- The engine's enumeration order (integer-like keys first) is not derived. The model takes the object's key sequence to already be in enumeration order.
- Every property is treated as a plain, deletable data property. A non-configurable property, such as one on a frozen `where`, would make `delete` throw a `TypeError` in strict mode; the model does not capture this.
- The source reads `where[key]` up to three times per turn. The model reads it once, so a getter or Proxy that returns different values on each read is not modelled.
- The payloads of `Scalar` and `Obj` are carried but never inspected, as in the source.
