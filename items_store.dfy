/** The Pinia store of stores/items.ts: the game data it loads (items, the set of craftable
    item IDs, the map from item-type ID to title), the language it detects, and the
    item-type filter the user toggles.

    The three `$fetch` calls and `navigator.language` are inputs: a fetch is `None` when it
    rejects, which the store's `catch` absorbs after the assignments already made. */
module Items {
  import opened Wrappers
  import opened Strings

  /** An item of items.json, with the fields of types/itemTypes.ts the front end filters on. */
  datatype Item = Item(id: int, itemTypeId: int, level: int, rarity: int)

  /** An entry of recipeResults.json. */
  datatype Recipe = Recipe(productedItemId: int)

  /** An entry of itemTypes.json: `definition.id` and the `title` object, None when absent.
      A language whose title is null or undefined is not a key of the map. */
  datatype ItemTypeEntry = ItemTypeEntry(definitionId: int, title: Option<map<string, string>>)

  const Languages: seq<string> := ["fr", "en", "es", "de"]
  const DefaultLang: string := "fr"
  const UnknownType: string := "Type inconnu"

  /** The plural placeholders the titles carry, removed by the two `replace` calls. */
  const PluralS: string := "{[~1]?s:}"
  const PluralX: string := "{[~1]?x:}"

  // ---------------------------------------------------------------------------
  // Craftable items

  /** `new Set(recipes.map(r => r.productedItemId))`: every produced item ID, duplicates
      collapsed, and nothing else. */
  function CraftableIds(recipes: seq<Recipe>): (ids: set<int>)
    ensures forall i :: 0 <= i < |recipes| ==> recipes[i].productedItemId in ids
    ensures forall id :: id in ids ==> exists i :: 0 <= i < |recipes| && recipes[i].productedItemId == id
    ensures |ids| <= |recipes|
  {
    if recipes == [] then {}
    else CraftableIds(recipes[..|recipes| - 1]) + {recipes[|recipes| - 1].productedItemId}
  }

  // ---------------------------------------------------------------------------
  // Type titles

  /** `s.replace(/pattern/g, "")` for a pattern without regular-expression operators: scans
      from the left and removes each match, resuming after it, so matches do not overlap. */
  function RemoveAll(s: string, pattern: string): (r: string)
    requires |pattern| > 0
    ensures |r| <= |s|
    decreases |s|
  {
    if |s| < |pattern| then s
    else if s[..|pattern|] == pattern then RemoveAll(s[|pattern|..], pattern)
    else [s[0]] + RemoveAll(s[1..], pattern)
  }

  /** A string without the pattern is returned unchanged. */
  lemma {:induction false} RemoveAllNoMatch(s: string, pattern: string)
    requires |pattern| > 0 && !Contains(s, pattern)
    ensures RemoveAll(s, pattern) == s
  {
    if |s| >= |pattern| {
      assert !OccursAt(s, pattern, 0);
      forall i | 0 <= i <= |s[1..]| && OccursAt(s[1..], pattern, i) ensures false {
        assert s[1..][i..i + |pattern|] == s[i + 1..i + 1 + |pattern|];
        assert OccursAt(s, pattern, i + 1);
      }
      RemoveAllNoMatch(s[1..], pattern);
    }
  }

  /** A string holding the pattern always loses characters. */
  lemma {:induction false} RemoveAllShrinks(s: string, pattern: string)
    requires |pattern| > 0 && Contains(s, pattern)
    ensures |RemoveAll(s, pattern)| < |s|
  {
    var i :| 0 <= i <= |s| && OccursAt(s, pattern, i);
    if s[..|pattern|] != pattern {
      assert i != 0;
      assert s[1..][i - 1..i - 1 + |pattern|] == s[i..i + |pattern|];
      assert OccursAt(s[1..], pattern, i - 1);
      RemoveAllShrinks(s[1..], pattern);
    }
  }

  /** Removal changes a string exactly when the pattern occurs in it. */
  lemma RemoveAllUnchangedIff(s: string, pattern: string)
    requires |pattern| > 0
    ensures RemoveAll(s, pattern) == s <==> !Contains(s, pattern)
  {
    if Contains(s, pattern) {
      RemoveAllShrinks(s, pattern);
    } else {
      RemoveAllNoMatch(s, pattern);
    }
  }

  /** The two `replace` calls on a type title: "{[~1]?s:}" first, then "{[~1]?x:}". */
  function NormaliseTitle(title: string): (r: string)
    ensures |r| <= |title|
  {
    RemoveAll(RemoveAll(title, PluralS), PluralX)
  }

  /** A title without `{` holds neither placeholder and is returned unchanged. */
  lemma NormaliseTitleWithoutBrace(title: string)
    requires '{' !in title
    ensures NormaliseTitle(title) == title
  {
    NotContainedWithoutFirstChar(title, PluralS);
    RemoveAllNoMatch(title, PluralS);
    NotContainedWithoutFirstChar(title, PluralX);
    RemoveAllNoMatch(title, PluralX);
  }

  lemma NormaliseTitleWithoutBraceIf(title: string)
    ensures '{' !in title ==> NormaliseTitle(title) == title
  {
    if '{' !in title {
      NormaliseTitleWithoutBrace(title);
    }
  }

  /** A prefix where no match starts is kept as it is. */
  lemma {:induction false} RemoveAllKeepsPrefix(u: string, v: string, pattern: string)
    requires |pattern| > 0
    requires forall k :: 0 <= k < |u| ==> !OccursAt(u + v, pattern, k)
    ensures RemoveAll(u + v, pattern) == u + RemoveAll(v, pattern)
  {
    if |u| > 0 {
      var w := u + v;
      assert !OccursAt(w, pattern, 0);
      assert w[1..] == u[1..] + v;
      forall k | 0 <= k < |u[1..]| ensures !OccursAt(u[1..] + v, pattern, k) {
        assert !OccursAt(w, pattern, k + 1);
        if k + |pattern| <= |u[1..] + v| {
          assert w[1..][k..k + |pattern|] == w[k + 1..k + 1 + |pattern|];
        }
      }
      RemoveAllKeepsPrefix(u[1..], v, pattern);
      if |w| >= |pattern| {
        assert w[..|pattern|] != pattern;
        var rest := RemoveAll(v, pattern);
        assert RemoveAll(w, pattern) == [u[0]] + (u[1..] + rest);
        assert [u[0]] + (u[1..] + rest) == ([u[0]] + u[1..]) + rest;
        assert [u[0]] + u[1..] == u;
      } else {
        assert RemoveAll(v, pattern) == v;
      }
    } else {
      assert u + v == v;
    }
  }

  /** A title whose inner placeholder, once removed, joins its surroundings into a new one. */
  const NestedPlaceholder: string := PluralOpen + PluralS + PluralClose

  /** The two halves of "{[~1]?s:}" around which the inner placeholder sits. */
  const PluralOpen: string := "{[~1]?"
  const PluralClose: string := "s:}"

  /** No match of "{[~1]?s:}" starts at positions 0 to 5 of `NestedPlaceholder`. */
  lemma NestedPlaceholderNoMatchAt(k: nat)
    requires k < 6
    ensures !OccursAt(NestedPlaceholder, PluralS, k)
  {
    var s := NestedPlaceholder;
    if k == 0 {
      assert s[..9][6] != PluralS[6];
    } else {
      assert s[k..k + 9][0] != PluralS[0];
    }
  }

  /** The first removal leaves one "{[~1]?s:}", made of the text around the inner one. */
  lemma NestedPlaceholderFirstPass()
    ensures RemoveAll(NestedPlaceholder, PluralS) == PluralS
  {
    var u, v := PluralOpen, PluralS + PluralClose;
    assert NestedPlaceholder == u + v;
    forall k | 0 <= k < |u| ensures !OccursAt(u + v, PluralS, k) {
      NestedPlaceholderNoMatchAt(k);
    }
    RemoveAllKeepsPrefix(u, v, PluralS);
    assert v[..|PluralS|] == PluralS && v[|PluralS|..] == PluralClose;
    assert RemoveAll(PluralClose, PluralS) == PluralClose;
    assert PluralOpen + PluralClose == PluralS;
  }

  /** Each removal is a single pass: removing one placeholder can join the text around it
      into a new one, which stays in the result. */
  lemma NormaliseTitleSinglePass()
    ensures NormaliseTitle(NestedPlaceholder) == PluralS
  {
    NestedPlaceholderFirstPass();
    NotContainedWithoutFirstChar(PluralS[1..], PluralX);
    RemoveAllNoMatch(PluralS[1..], PluralX);
    assert PluralS[..9][6] != PluralX[6];
  }

  /** The title of a type in language `lang`: `title?.[lang] ?? "Type inconnu"`, normalised. */
  function TypeTitle(entry: ItemTypeEntry, lang: string): string {
    var raw := match entry.title
      case None => UnknownType
      case Some(t) => if lang in t then t[lang] else UnknownType;
    NormaliseTitle(raw)
  }

  /** A title present in `lang` goes through both removals and never grows; one without `{`
      is kept as it is. */
  lemma PresentTitle(entry: ItemTypeEntry, lang: string)
    requires entry.title.Some? && lang in entry.title.value
    ensures TypeTitle(entry, lang) == NormaliseTitle(entry.title.value[lang])
    ensures |TypeTitle(entry, lang)| <= |entry.title.value[lang]|
    ensures '{' !in entry.title.value[lang] ==> TypeTitle(entry, lang) == entry.title.value[lang]
  {
    NormaliseTitleWithoutBraceIf(entry.title.value[lang]);
  }

  /** A type without a title in `lang` is shown as "Type inconnu". */
  lemma MissingTitleIsUnknown(entry: ItemTypeEntry, lang: string)
    requires entry.title.None? || lang !in entry.title.value
    ensures TypeTitle(entry, lang) == UnknownType
  {
    NormaliseTitleWithoutBrace(UnknownType);
  }

  /** Entry `j` is the last one carrying its ID. */
  predicate IsLastWithId(entries: seq<ItemTypeEntry>, j: int) {
    0 <= j < |entries| &&
    forall k :: j < k < |entries| ==> entries[k].definitionId != entries[j].definitionId
  }

  /** `new Map(entries.map(t => [t.definition.id, title]))`: its keys are exactly the IDs
      of the entries. */
  function TypeMap(entries: seq<ItemTypeEntry>, lang: string): (m: map<int, string>)
    ensures forall j :: 0 <= j < |entries| ==> entries[j].definitionId in m
    ensures forall id :: id in m ==> exists j :: 0 <= j < |entries| && entries[j].definitionId == id
  {
    if entries == [] then map[]
    else
      var last := entries[|entries| - 1];
      TypeMap(entries[..|entries| - 1], lang)[last.definitionId := TypeTitle(last, lang)]
  }

  /** Each ID maps to the title of the last entry carrying it. */
  lemma {:induction false} TypeMapLastWins(entries: seq<ItemTypeEntry>, lang: string, j: int)
    requires IsLastWithId(entries, j)
    ensures TypeMap(entries, lang)[entries[j].definitionId] == TypeTitle(entries[j], lang)
  {
    var n := |entries| - 1;
    if j < n {
      var prefix := entries[..n];
      assert prefix[j] == entries[j];
      assert IsLastWithId(prefix, j);
      TypeMapLastWins(prefix, lang, j);
    }
  }

  // ---------------------------------------------------------------------------
  // Language detection

  /** `s.split("-")[0]`: the text before the first `-`, or all of `s` when it has none. */
  function LangPrefix(s: string): (r: string)
    ensures r <= s && '-' !in r
    ensures |r| < |s| ==> s[|r|] == '-'
  {
    if s == [] || s[0] == '-' then [] else [s[0]] + LangPrefix(s[1..])
  }

  /** The detected language is always supported: the browser's language prefix when it is in
      the list, "fr" otherwise. */
  function DetectLanguage(navigatorLanguage: string): (lang: string)
    ensures lang in Languages
    ensures lang == LangPrefix(navigatorLanguage) || (lang == DefaultLang && LangPrefix(navigatorLanguage) !in Languages)
  {
    var prefix := LangPrefix(navigatorLanguage);
    if prefix in Languages then prefix else DefaultLang
  }

  // ---------------------------------------------------------------------------
  // Type filter

  /** The selection after toggling `id`: `id` flips membership, no other ID changes. */
  function Toggle(selected: set<int>, id: int): (r: set<int>)
    ensures id in r <==> id !in selected
    ensures r - {id} == selected - {id}
  {
    if id in selected then selected - {id} else selected + {id}
  }

  /** Toggling the same ID twice restores the selection. */
  lemma ToggleTwice(selected: set<int>, id: int)
    ensures Toggle(Toggle(selected, id), id) == selected
  {
    var once := Toggle(selected, id);
    var twice := Toggle(once, id);
    assert twice - {id} == selected - {id};
    assert id in twice <==> id in selected;
  }

  // ---------------------------------------------------------------------------
  // The store

  class ItemsStore {
    var items: seq<Item>
    var craftableItemsIds: set<int>
    var itemTypes: map<int, string>
    var selectedItemTypes: set<int>
    var showCraftableOnly: bool
    var userLang: string

    /** The store's language is always one it supports. */
    ghost predicate Valid()
      reads this
    {
      userLang in Languages
    }

    /** The initial state of the store. */
    constructor ()
      ensures Valid()
      ensures items == [] && craftableItemsIds == {} && itemTypes == map[]
      ensures selectedItemTypes == {} && !showCraftableOnly && userLang == DefaultLang
    {
      items := [];
      craftableItemsIds := {};
      itemTypes := map[];
      selectedItemTypes := {};
      showCraftableOnly := false;
      userLang := DefaultLang;
    }

    /** `getItems`: stores the items, then the craftable IDs, then the type map (built with
        the language held on entry), then detects the language. A rejected fetch ends the
        action with the assignments made so far. */
    method GetItems(itemsFetch: Option<seq<Item>>, recipesFetch: Option<seq<Recipe>>,
                    typesFetch: Option<seq<ItemTypeEntry>>, navigatorLanguage: string)
      requires Valid()
      modifies this`items, this`craftableItemsIds, this`itemTypes, this`userLang
      ensures Valid()
      ensures items == if itemsFetch.Some? then itemsFetch.value else old(items)
      ensures craftableItemsIds ==
        if itemsFetch.Some? && recipesFetch.Some? then CraftableIds(recipesFetch.value)
        else old(craftableItemsIds)
      ensures itemTypes ==
        if itemsFetch.Some? && recipesFetch.Some? && typesFetch.Some?
        then TypeMap(typesFetch.value, old(userLang))
        else old(itemTypes)
      ensures userLang ==
        if itemsFetch.Some? && recipesFetch.Some? && typesFetch.Some?
        then DetectLanguage(navigatorLanguage)
        else old(userLang)
    {
      if itemsFetch.None? {
        return;
      }
      items := itemsFetch.value;
      if recipesFetch.None? {
        return;
      }
      craftableItemsIds := CraftableIds(recipesFetch.value);
      if typesFetch.None? {
        return;
      }
      itemTypes := TypeMap(typesFetch.value, userLang);
      userLang := DetectLanguage(navigatorLanguage);
    }

    /** `toggleItemTypeFilter`: removes `id` from the selected types when it is there, adds it
        otherwise; nothing else in the store changes. */
    method ToggleItemTypeFilter(id: int)
      requires Valid()
      modifies this`selectedItemTypes
      ensures Valid()
      ensures selectedItemTypes == Toggle(old(selectedItemTypes), id)
    {
      if id in selectedItemTypes {
        selectedItemTypes := selectedItemTypes - {id};
      } else {
        selectedItemTypes := selectedItemTypes + {id};
      }
    }
  }
}
