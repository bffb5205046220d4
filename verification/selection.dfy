/**
 * The favourites toggle (`favStore.toggle`) of assets/js/app.js. The
 * favourites live only in local storage: each call reads the stored set,
 * and the toggle writes the changed set back. Here the set read is an
 * input and the set to write back is the result. Ids are the decimal
 * strings the buttons pass in (`String(p.id)`).
 */
module Favorites {

  /** The set after the toggle and whether `id` is a favourite afterwards. */
  datatype Toggled = Toggled(favorites: set<string>, on: bool)

  /** `toggle(id)`: removes `id` when present, adds it otherwise, and reports membership afterwards. */
  function Toggle(favorites: set<string>, id: string): (t: Toggled)
    ensures t.on <==> id !in favorites
    ensures t.on <==> id in t.favorites
    ensures forall x :: x != id ==> (x in t.favorites <==> x in favorites)
  {
    if id in favorites then Toggled(favorites - {id}, false) else Toggled(favorites + {id}, true)
  }

  /** Toggling the same id twice gives back the original set. */
  lemma ToggleTwice(favorites: set<string>, id: string)
    ensures Toggle(Toggle(favorites, id).favorites, id).favorites == favorites
    ensures Toggle(Toggle(favorites, id).favorites, id).on == (id in favorites)
  {
    var once := Toggle(favorites, id).favorites;
    var twice := Toggle(once, id).favorites;
    assert forall x :: x in twice <==> x in favorites;
  }
}

/**
 * The comparison selection of assets/js/app.js (`compareSet`, `MAX_COMPARE`,
 * `addToCompare`, `removeFromCompare`), on the set of selected ids; redrawing
 * the comparison bar and view is not part of this model.
 */
module Compare {
  import opened Wrappers

  const MaxCompare := 6

  /** The alert shown when a seventh creature is added. */
  const FullAlert := "Máximo 6 para comparar."

  /** The selection after an addition and the alert shown, if any. */
  datatype Added = Added(selection: set<int>, alert: Option<string>)

  /**
   * `addToCompare(p)`: an id not yet selected is refused with the alert when
   * six are already selected; otherwise it is added (adding a selected id
   * changes nothing).
   */
  function AddToCompare(selection: set<int>, id: int): (a: Added)
    ensures id !in selection && |selection| >= MaxCompare ==> a == Added(selection, Some(FullAlert))
    ensures id in selection || |selection| < MaxCompare ==> a.alert.None? && a.selection == selection + {id}
  {
    if id !in selection && |selection| >= MaxCompare then Added(selection, Some(FullAlert))
    else Added(selection + {id}, None)
  }

  /** `removeFromCompare(id)`. */
  function RemoveFromCompare(selection: set<int>, id: int): (s: set<int>)
    ensures id !in s
    ensures forall x :: x != id ==> (x in s <==> x in selection)
  {
    selection - {id}
  }

  /** No sequence of additions and removals takes a selection of at most six past six. */
  lemma SelectionStaysBounded(selection: set<int>, id: int)
    requires |selection| <= MaxCompare
    ensures |AddToCompare(selection, id).selection| <= MaxCompare
    ensures |RemoveFromCompare(selection, id)| <= MaxCompare
  {
    if id !in selection && |selection| < MaxCompare {
      assert |selection + {id}| == |selection| + 1;
    } else if id in selection {
      assert selection + {id} == selection;
    }
    assert RemoveFromCompare(selection, id) <= selection;
  }

  /** Adding a new id that was accepted and then removing it restores the selection. */
  lemma AddThenRemove(selection: set<int>, id: int)
    requires id !in selection
    requires AddToCompare(selection, id).alert.None?
    ensures RemoveFromCompare(AddToCompare(selection, id).selection, id) == selection
  {
  }
}
