# milly-menu recipe selection, modelled in Dafny

milly-menu picks a handful of random recipes from a MongoDB collection each week,
collects their ingredients into a deduplicated grocery list and mails both out.
This project models the part of `app.go` that does the picking and the collecting:

- `isMember`, the linear scan that asks whether a position was sampled;
- `randomInts`, which takes the first `n` entries of a random permutation of
  `0 .. total - 1`;
- the `SingleRecipe` record;
- the cursor loop of `selectRecipes`. The loop walks the stream in order and
  counts every record with `idx`. Each record at a sampled position is decoded
  and stored in `Recipes` under the next dense key `recipeID`. Its ingredients
  are added to `GroceryList`.

Files:

- `recipe.dfy` (module `Recipe`): `SingleRecipe`, the raw `Document` a cursor
  yields, and `Decode`. `Decode` succeeds on a well-formed document and fails
  with the driver's reason on a malformed one.
- `sampling.dfy` (module `Sampling`): `IsMember` is a method with the source's
  loop and early return. `RandomInts` takes the permutation as an input. The
  lemmas show that such a permutation, and so every prefix of it, is free of
  repeats and in range.
- `selection.dfy` (module `Selection`): `CollectSelected` is the cursor loop,
  with the counters `idx` and `recipeID`, the map and the set as locals. It is
  proved equal to the function `Expected`, which is built from `Selected` (the
  sampled documents in stream order), `DecodeAll` (decode in order and stop at
  the first failure), `Indexed` (dense keys) and `Groceries` (the union of
  ingredients). The lemmas then state what `Expected` means. `SelectRecipes`
  composes sampling and the loop.

Modelling choices:

- The random source is an input. `perm` must be a permutation of
  `0 .. count - 1`, stated as `multiset(perm) == multiset(Iota(count))`.
- `p[:n]` panics when `n > total`. `RandomInts` therefore requires
  `n <= total`. `SelectRecipes`, which calls it with the record count, returns
  `Err(SliceOutOfRange(count, nRecipes))` in that case, so the abort is modelled.
  The model does not clamp the sample to the population size, because the code
  does not.
- `log.Fatal` after a failed decode becomes `Err(DecodeFailed(reason))`. The
  first sampled position in stream order that holds a malformed document gives
  the reason.
- `Recipes` and `GroceryList` are package-level variables that start empty, and
  `selectRecipes` runs once per process. The model returns them as a `Menu`
  value instead of mutating globals.
- The count from `CountDocuments` and the cursor are separate inputs, as in the
  code. The promise of exactly `nRecipes` keys is made when the two agree.
- The loop invariants of `CollectSelected` carry the counter facts. `idx`
  advances by one on every record, selected or skipped, and ends equal to the
  stream length. `recipeID` always equals the number of stored recipes.

## Model

| member | source | states |
|---|---|---|
| `Sampling.IsMember` | app.go:57-65 | the scan returns true exactly when `n` occurs in the slice |
| `Sampling.RandomInts` | app.go:69-74 | for a permutation of `0 .. total - 1` and `n <= total`, the result is a prefix of the permutation with exactly `n` pairwise-distinct entries, each in `[0, total)` |
| `Sampling.PermutationFacts` | app.go:72 | a permutation of `0 .. total - 1` has `total` entries, all in range, none repeated |
| `Sampling.SampleWhole` | app.go:72-73 | asking for `total` of `total` indices returns every index `0 .. total - 1` and nothing else |
| `Selection.AddIngredients` | app.go:247-249 | adding the ingredients one by one gives the old list united with the set of the ingredients |
| `Selection.SkipStep` | app.go:233-236 | a record at an unsampled position is skipped: the selection up to it is unchanged |
| `Selection.TakeStep` | app.go:239-255 | a sampled record that decodes is appended, after all recipes stored so far |
| `Selection.FailStep` | app.go:240-243 | a sampled record that fails to decode, after successful ones, makes the run fail with its reason whatever follows |
| `Selection.StoreStep` | app.go:246-255 | storing a recipe puts it under the next key and adds exactly its ingredients to the grocery list |
| `Selection.CollectSelected` | app.go:228-256 | the cursor loop returns exactly `Expected`: the sampled records in stream order under keys `0 ..`, the union of their ingredients, or the first decode failure among sampled records |
| `Selection.SelectRecipes` | app.go:211-256 | a sample larger than the count aborts like the out-of-range slice; otherwise the result is the loop over the sampled indices, and on success over a stream of `count` records the keys are exactly `0 .. nRecipes - 1` |
| `Selection.DecodeErrorPersists` | app.go:240-243 | once a sampled record fails to decode, the records after it cannot change the failure (the run aborts there) |
| `Selection.PositionsExact` | app.go:230-236 | the selected positions are exactly the stream positions found in the sample, each once, in ascending order |
| `Selection.SelectedInStreamOrder` | app.go:230-236 | the j-th selected document is the one at the j-th sampled position of the stream; documents at unsampled positions never appear |
| `Selection.SelectionSize` | app.go:224-236 | distinct sampled indices that all lie inside the stream select exactly as many records as were sampled |
| `Selection.DecodeAllOk` | app.go:239-243 | decoding the selected records succeeds iff all of them are well-formed, and then yields their recipes in order |
| `Selection.DecodeAllErr` | app.go:239-243 | a failed decoding run reports the reason of the first malformed document, all before it being well-formed |
| `Selection.SucceedsIff` | app.go:233-243 | a run succeeds iff every sampled position holds a well-formed document; malformed documents at unsampled positions are skipped without decoding |
| `Selection.FailsAtFirstMalformed` | app.go:240-243 | a failed run names the reason of the first sampled malformed document in stream order |
| `Selection.RecipesDense` | app.go:228-255 | the keys of `Recipes` are exactly `0 .. k - 1` for `k` selected records, and key `j` holds the decoded record at the j-th sampled position |
| `Selection.GroceriesMembership` | app.go:246-250 | an ingredient is in the folded set iff some stored recipe lists it |
| `Selection.GroceryListIsUnion` | app.go:246-253 | the grocery list of a successful run is the union of the ingredients of the recipes in `Recipes` |
| `Selection.StoreRecipe` | app.go:246-255 | storing a recipe adds it under the next key; if it lists no new ingredient (an empty list, or only duplicates) the grocery list is unchanged |
| `Selection.UnselectedIgnored` | app.go:233-236 | changing records at unsampled positions changes neither the selection nor the outcome |
| `Selection.SampledMenuSize` | app.go:224-255 | sampling `n` of `count` positions over a stream of `count` records yields, on success, keys exactly `0 .. n - 1` |

## Left out

- MongoDB connection, ping, `CountDocuments`, `Find` and closing the cursor (app.go:90-106, 213-223, 229): network and driver I/O. The count and the record stream are inputs, and the errors discarded at app.go:219 and app.go:223 are not modelled.
- BSON decoding itself: a document is either well-formed (it carries a `SingleRecipe`) or malformed with a reason; the driver's field-by-field rules are not part of this model.
- Seeding from `time.Now().UnixNano()` and `rand.Perm` (app.go:71-72): foreign randomness. The permutation is an input, so uniformity of the sample is not stated or proved. The model only proves that any permutation gives distinct, in-range indices.
- In-place mutation of the globals `Recipes` and `GroceryList` (app.go:46, 49): they start empty and are written by one call, so the model returns their final values instead. After a fatal decode error the partly filled globals die with the process, and the model returns no menu.
- `formatAsHTML` (app.go:110-179): string formatting whose row order depends on Go map and set iteration order.
- `sendEmail` (app.go:183-203), `configureEmail` and the `--configure` path of `main` (app.go:78-86, 262-277): SMTP, keyring, terminal and clock I/O.
- The logging calls (`log.Printf`) in `selectRecipes`: output only.
- The `mapset` library: `GroceryList` is a Dafny `set<string>`, with dedup by exact string equality.
