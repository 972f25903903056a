/**
 * The favorites store held by the `useFavorites` hook: the in-memory list,
 * the browser's local storage (one record under a fixed key), and the log of
 * toasts requested for the user. Operations run one at a time, each seeing the
 * latest list. The outcome of a storage write or read is a parameter, since
 * the browser decides it.
 */
module FavoritesStore {
  import opened Wrappers
  import opened Recipes
  import opened FavoritesList

  /** The key of the durable record. */
  const FavoritesKey: string := "fridge2food-favorites"

  datatype Variant = Default | Destructive

  /** A toast notification requested for the user. */
  datatype Toast = Toast(variant: Variant, title: string, description: string)

  /**
   * The serialisation of the list into the stored text and back; a decode
   * that fails stands for a parse error.
   */
  datatype Codec = Codec(encode: seq<Recipe> -> string, decode: string -> Option<seq<Recipe>>)

  /** What a JSON codec provides: a non-empty encoding that decodes back to the list. */
  ghost predicate Lawful(codec: Codec) {
    forall favs :: codec.encode(favs) != "" && codec.decode(codec.encode(favs)) == Some(favs)
  }

  /** What reading the durable record yields: an exception, or the item (absent or text). */
  datatype Read = Threw | Item(item: Option<string>)

  /** What loading does to the in-memory list. */
  datatype Restored = Keep | Replace(favs: seq<Recipe>) | Reset

  /**
   * The startup load: a missing or empty item leaves the list as it is, a
   * parsed item replaces it, and a read or parse failure resets it to empty.
   */
  function Restore(codec: Codec, read: Read): (r: Restored)
    ensures r.Keep? <==> read.Item? && (read.item.None? || read.item.value == "")
    ensures r.Reset? ==> read.Threw? || codec.decode(read.item.value).None?
    ensures r.Replace? ==> read.Item? && read.item.Some? && codec.decode(read.item.value) == Some(r.favs)
  {
    match read
    case Threw => Reset
    case Item(None) => Keep
    case Item(Some(text)) =>
      if text == "" then Keep
      else match codec.decode(text)
        case None => Reset
        case Some(favs) => Replace(favs)
  }

  /** The warning emitted when the durable write fails. */
  const SaveFailedToast: Toast := Toast(Destructive, "Error", "Could not save your favorites.")

  function AddedToast(title: string): Toast {
    Toast(Default, "Added to Favorites!", "\"" + title + "\" has been saved.")
  }

  function RemovedToast(title: string): Toast {
    Toast(Default, "Removed from Favorites", "\"" + title + "\" has been removed.")
  }

  /** The toasts a save emits: one warning when the write failed, none otherwise. */
  function SaveToasts(writeOk: bool): (t: seq<Toast>)
    ensures |t| == (if writeOk then 0 else 1)
    ensures forall k :: 0 <= k < |t| ==> t[k] == SaveFailedToast && t[k].variant == Destructive
  {
    if writeOk then [] else [SaveFailedToast]
  }

  /** The toasts a removal emits after saving: one naming the first match, if any. */
  function RemoveToasts(favs: seq<Recipe>, id: string): (t: seq<Toast>)
    ensures |t| == (if HasId(favs, id) then 1 else 0)
    ensures HasId(favs, id) ==> exists i :: 0 <= i < |favs| && favs[i].id == id &&
                                 t == [RemovedToast(favs[i].title)] &&
                                 forall j :: 0 <= j < i ==> favs[j].id != id
  {
    match FindById(favs, id)
    case None => []
    case Some(r) => [RemovedToast(r.title)]
  }

  /** The storage after a save: the record is rewritten only when the write succeeds. */
  function Stored(storage: map<string, string>, codec: Codec, favs: seq<Recipe>, writeOk: bool): (s: map<string, string>)
    ensures writeOk ==> FavoritesKey in s && s[FavoritesKey] == codec.encode(favs)
    ensures !writeOk ==> s == storage
    ensures forall key :: key != FavoritesKey ==>
      (key in s <==> key in storage) && (key in s ==> s[key] == storage[key])
  {
    if writeOk then storage[FavoritesKey := codec.encode(favs)] else storage
  }

  /** A successful save followed by a load gives back exactly the list saved. */
  lemma ReloadAfterSave(storage: map<string, string>, codec: Codec, favs: seq<Recipe>)
    requires Lawful(codec)
    ensures Restore(codec, Item(Some(Stored(storage, codec, favs, true)[FavoritesKey]))) == Replace(favs)
  {
  }

  class Favorites {
    /** The in-memory list shown by the interface. */
    var favorites: seq<Recipe>
    /** The browser's local storage. */
    var storage: map<string, string>
    /** Every toast requested so far, oldest first. */
    var toasts: seq<Toast>
    const codec: Codec

    /**
     * The intended invariant: no id occurs twice in the list. `Add`, `Save`
     * and `Load` may break it; `Remove` and `Toggle` preserve it.
     */
    predicate IdsDistinct()
      reads this
    {
      DistinctIds(favorites)
    }

    /** Mounting the hook: the list starts empty, before anything is loaded. */
    constructor (codec: Codec, storage: map<string, string>)
      ensures this.codec == codec && this.storage == storage
      ensures favorites == [] && toasts == []
      ensures IdsDistinct()
    {
      this.codec := codec;
      this.storage := storage;
      favorites := [];
      toasts := [];
    }

    /** The load run once after mounting; failures fall back to an empty list. */
    method Load(readThrows: bool)
      modifies this
      ensures storage == old(storage) && toasts == old(toasts)
      ensures readThrows ==> favorites == []
      ensures !readThrows && FavoritesKey !in storage ==> favorites == old(favorites)
      ensures !readThrows && FavoritesKey in storage ==>
        favorites == match Restore(codec, Item(Some(storage[FavoritesKey])))
                     case Keep => old(favorites)
                     case Replace(favs) => favs
                     case Reset => []
    {
      var read := if readThrows then Threw
                  else if FavoritesKey in storage then Item(Some(storage[FavoritesKey]))
                  else Item(None);
      match Restore(codec, read)
      case Keep =>
      case Replace(favs) => favorites := favs;
      case Reset => favorites := [];
    }

    /**
     * Replaces the in-memory list first, then attempts the durable write; a
     * failed write keeps the new list and emits one destructive warning.
     */
    method Save(newFavorites: seq<Recipe>, writeOk: bool)
      modifies this
      ensures favorites == newFavorites
      ensures storage == Stored(old(storage), codec, newFavorites, writeOk)
      ensures toasts == old(toasts) + SaveToasts(writeOk)
    {
      favorites := newFavorites;
      if writeOk {
        storage := storage[FavoritesKey := codec.encode(newFavorites)];
      } else {
        toasts := toasts + [SaveFailedToast];
      }
    }

    /** Appends the recipe, without checking for its id, saves, and confirms. */
    method Add(recipe: Recipe, writeOk: bool)
      modifies this
      ensures favorites == Appended(old(favorites), recipe)
      ensures storage == Stored(old(storage), codec, favorites, writeOk)
      ensures toasts == old(toasts) + SaveToasts(writeOk) + [AddedToast(recipe.title)]
    {
      Save(Appended(favorites, recipe), writeOk);
      toasts := toasts + [AddedToast(recipe.title)];
    }

    /**
     * Filters out every entry with the id and saves; confirms with the title
     * of the first entry removed, and emits nothing when none was there.
     */
    method Remove(id: string, writeOk: bool)
      modifies this
      ensures favorites == Without(old(favorites), id)
      ensures !HasId(favorites, id)
      ensures !HasId(old(favorites), id) ==> favorites == old(favorites)
      ensures storage == Stored(old(storage), codec, favorites, writeOk)
      ensures toasts == old(toasts) + SaveToasts(writeOk) + RemoveToasts(old(favorites), id)
      ensures old(IdsDistinct()) ==> IdsDistinct()
    {
      var found := FindById(favorites, id);
      WithoutUnchangedIff(favorites, id);
      if IdsDistinct() {
        WithoutKeepsDistinct(favorites, id);
      }
      var before := favorites;
      Save(Without(favorites, id), writeOk);
      assert RemoveToasts(before, id) == if found.Some? then [RemovedToast(found.value.title)] else [];
      match found {
        case None =>
        case Some(r) => toasts := toasts + [RemovedToast(r.title)];
      }
    }

    /** Membership of the id in the current list. */
    method IsFavorite(id: string) returns (b: bool)
      ensures b <==> exists i :: 0 <= i < |favorites| && favorites[i].id == id
    {
      b := HasId(favorites, id);
    }

    /** Removes the recipe when its id is present, adds it otherwise. */
    method Toggle(recipe: Recipe, writeOk: bool)
      modifies this
      ensures favorites == Toggled(old(favorites), recipe)
      ensures HasId(favorites, recipe.id) <==> !HasId(old(favorites), recipe.id)
      ensures storage == Stored(old(storage), codec, favorites, writeOk)
      ensures toasts == old(toasts) + SaveToasts(writeOk) +
        if HasId(old(favorites), recipe.id) then RemoveToasts(old(favorites), recipe.id)
        else [AddedToast(recipe.title)]
      ensures old(IdsDistinct()) ==> IdsDistinct()
    {
      if IdsDistinct() {
        ToggleKeepsDistinct(favorites, recipe);
      }
      var present := IsFavorite(recipe.id);
      if present {
        Remove(recipe.id, writeOk);
      } else {
        Add(recipe, writeOk);
      }
    }
  }
}
