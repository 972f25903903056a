# Fridge2Food favorites store

A Dafny model of the favorites store behind the `useFavorites` hook of
Fridge2Food. The store keeps an ordered list of recipes keyed by `id`. It
persists that list as a single record in the browser's local storage under
the key `fridge2food-favorites`, and it confirms each change with a toast.

- `Recipes.dfy`: the `Recipe` record (`src/lib/types.ts:1-7`). Only `id` and `title` affect the store.
- `FavoritesList.dfy`: the list computations as pure functions. These are append (`[...favorites, recipe]`), filter-by-id, find-first-by-id, some-by-id and the toggle choice. The lemmas state order preservation, membership, no-op cases, distinctness of ids and the behaviour of two toggles in a row.
- `FavoritesStore.dfy`: the hook's state as the class `Favorites`. It has the in-memory list, the local-storage map, and the log of toasts requested so far. Its methods are `Load` (the startup effect), `Save`, `Add`, `Remove`, `IsFavorite` and `Toggle`. Each mutating method states the complete new state: list, storage and toasts.

The outcome of a storage write is the `writeOk` parameter. A read that throws is the `readThrows` parameter. JSON serialisation is an abstract `Codec` pair of functions. `Lawful(codec)` says that the encoding is never empty and decodes back to the same list.

Points of the code's behaviour that the model keeps:

- Removing an id that is not in the list still calls `saveFavorites` (`src/hooks/useFavorites.ts:51`). So the record is rewritten, and a failed write still emits the warning. Only the "Removed" toast is skipped.
- Ids are meant to be unique, but `addFavorite` does not enforce it (`AppendPresentDuplicates`). Only the toggle path (`ToggleKeepsDistinct`) and removal (`WithoutKeepsDistinct`) preserve it.
- On a failed write, `addFavorite` emits the warning first and then still emits "Added to Favorites!".

## Model

| member | source | states |
|---|---|---|
| FavoritesList.HasId | src/hooks/useFavorites.ts:60-62 | membership holds exactly when some position of the list carries the id |
| FavoritesList.Appended | src/hooks/useFavorites.ts:39-41 | the new list is one longer, keeps every earlier entry at its position, and ends with the recipe |
| FavoritesList.Without | src/hooks/useFavorites.ts:50 | an entry survives exactly when it was in the list and its id differs; the list never grows |
| FavoritesList.FindById | src/hooks/useFavorites.ts:49 | it finds nothing exactly when the id is absent; otherwise it returns the first entry with that id |
| FavoritesList.Toggled | src/hooks/useFavorites.ts:64-70 | membership of the recipe's id flips, and membership of every other id is unchanged |
| FavoritesList.WithoutIsSubsequence | src/hooks/useFavorites.ts:50 | the filtered list keeps the surviving entries in their original relative order |
| FavoritesList.WithoutConcat | src/hooks/useFavorites.ts:50 | filtering a concatenation filters each part in place |
| FavoritesList.WithoutUnchangedIff | src/hooks/useFavorites.ts:48-51 | removal leaves the list equal to the original exactly when the id is absent |
| FavoritesList.WithoutDistinctRemovesOne | src/hooks/useFavorites.ts:50 | with distinct ids, removing a present id shortens the list by exactly one |
| FavoritesList.WithoutKeepsDistinct | src/hooks/useFavorites.ts:50 | removal preserves pairwise-distinct ids |
| FavoritesList.AppendPresentDuplicates | src/hooks/useFavorites.ts:40 | adding an already-present id still grows the list by one and leaves a duplicate id |
| FavoritesList.ToggleKeepsDistinct | src/hooks/useFavorites.ts:64-70 | toggling preserves pairwise-distinct ids |
| FavoritesList.ToggleTwiceAbsent | src/hooks/useFavorites.ts:64-70 | starting without the id, two toggles return exactly the original list |
| FavoritesList.ToggleTwicePresent | src/hooks/useFavorites.ts:64-70 | starting with the id, two toggles restore membership, but all earlier entries with the id are gone and the recipe is last |
| FavoritesStore.Restore | src/hooks/useFavorites.ts:13-23 | a missing or empty item keeps the list; a parsed item replaces it; a read or parse failure resets it to empty |
| FavoritesStore.ReloadAfterSave | src/hooks/useFavorites.ts:15-28 | with a lawful codec, loading after a successful save yields exactly the saved list |
| FavoritesStore.SaveToasts | src/hooks/useFavorites.ts:29-36 | a save emits no toast when the write succeeds, and exactly one destructive warning when it fails |
| FavoritesStore.RemoveToasts | src/hooks/useFavorites.ts:49-57 | a removal emits one toast naming the first matching recipe when the id is present, and none otherwise |
| FavoritesStore.Stored | src/hooks/useFavorites.ts:28 | a successful write stores the encoded list under the favorites key; a failed one changes nothing; other keys are never touched |
| FavoritesStore.Favorites.constructor | src/hooks/useFavorites.ts:10 | the hook starts with an empty list and no toasts |
| FavoritesStore.Favorites.Load | src/hooks/useFavorites.ts:13-23 | the new list is the one the stored item restores to; storage and toasts are unchanged |
| FavoritesStore.Favorites.Save | src/hooks/useFavorites.ts:25-37 | the new list is in place whatever the write outcome; storage is written only on success; a failure adds one warning |
| FavoritesStore.Favorites.Add | src/hooks/useFavorites.ts:39-46 | the list is the old list with the recipe appended; storage is as saved; the save toasts are followed by "Added to Favorites!" |
| FavoritesStore.Favorites.Remove | src/hooks/useFavorites.ts:48-58 | the list is the old list filtered by id; the id is absent afterwards; an absent id leaves the list unchanged; toasts are the save toasts followed by the removal toast; distinct ids are preserved |
| FavoritesStore.Favorites.IsFavorite | src/hooks/useFavorites.ts:60-62 | the answer is true exactly when some entry of the current list has the id |
| FavoritesStore.Favorites.Toggle | src/hooks/useFavorites.ts:64-70 | the list is the toggled list; membership of the id flips; toasts follow the removal or the addition path; distinct ids are preserved |

## Left out

- React mechanics are not modelled: `useState`, `useEffect`, `useCallback`, dependency arrays and stale closures. Operations run one at a time, and each sees the latest list.
- `console.error` output is not recorded; only toasts are logged. Toast rendering, ids and dismissal are not modelled either.
- The JSON text format is not modelled. `JSON.stringify`/`JSON.parse` are the abstract `Codec`. A stored text that parses to something other than a list of recipes (for example `null`) counts as a parse failure here. The source would instead install that value as the state.
- The recipe request orchestration is not part of this model: `src/ai/flows/recipe-flow.ts`, `src/ai/flows/generate-recipe.ts`, `src/ai/genkit.ts` and `src/app/actions.ts`. It consists of prompt templates and calls to a hosted language model.
- The UI pages and components are not part of this model: `src/app/page.tsx`, `src/app/favorites/page.tsx`, `src/components/RecipeCard.tsx` and `src/components/Header.tsx`.
- The fields `ingredients` and `steps` are carried unchanged as sequences of strings, as `src/lib/types.ts:3-4` declares them. The store never inspects them.
