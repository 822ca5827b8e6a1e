/**
 The list page `Home` once its list has loaded: the search text `name`, the
 shown list `filteredPokemons`, and the debounced `filterPokemons` whose
 delivered term is turned into the shown list by the name filter.
 */
module HomePage {
  import opened PokemonFilter
  import opened Debounce

  class Home {
    /** The loaded list (`pokemons` state), fixed from here on. */
    const pokemons: seq<Pokemon>
    /** The search box's text (`name` state). */
    var name: string
    /** The list on screen (`filteredPokemons` state). */
    var filtered: seq<Pokemon>
    /** `filterPokemons`: the debounced filter, delay 300 ms. */
    const filterPokemons: Debouncer<string>

    /**
     The debouncer runs with the page's delay and was last called with the
     current text; the list on screen is empty until the first firing and
     afterwards the filter of the term last delivered, which is the current
     text whenever no timer is pending.
     */
    ghost predicate Valid()
      reads this, filterPokemons
    {
      && filterPokemons.Valid()
      && filterPokemons.delay == SearchDelay
      && LastTask(filterPokemons.history, SearchDelay).Some?
      && LastTask(filterPokemons.history, SearchDelay).value.arg == name
      && (filterPokemons.delivered == [] ==> filtered == [])
      && (filterPokemons.delivered != [] ==>
            filtered == Filter(pokemons, filterPokemons.delivered[|filterPokemons.delivered| - 1].arg))
      && (filterPokemons.pending.None? ==> filtered == Filter(pokemons, name))
    }

    /**
     The page right after the list arrived at time `now`: the search box is
     empty (it is not shown while loading), nothing is listed yet, and the
     effect has called the debounced filter with the empty text.
     */
    constructor (pokemons: seq<Pokemon>, now: int)
      ensures Valid() && fresh(filterPokemons)
      ensures this.pokemons == pokemons && name == "" && filtered == []
      ensures filterPokemons.history == [CallAt("", now)] && filterPokemons.delivered == []
      ensures filterPokemons.pending == Some(Task("", now + SearchDelay))
    {
      this.pokemons := pokemons;
      name := "";
      filtered := [];
      var d := new Debouncer<string>(SearchDelay);
      d.Call("", now);
      filterPokemons := d;
    }

    /**
     A keystroke: the box shows `term` at once; when the text changed, the
     effect calls the debounced filter with it, which replaces any pending
     filtering. The list on screen does not change yet.
     */
    method SetName(term: string, now: int)
      requires Valid()
      modifies this, filterPokemons
      ensures Valid() && name == term && filtered == old(filtered)
      ensures filterPokemons.delivered == old(filterPokemons.delivered)
      ensures term != old(name) ==>
        && filterPokemons.history == old(filterPokemons.history) + [CallAt(term, now)]
        && filterPokemons.pending == Some(Task(term, now + SearchDelay))
      ensures term == old(name) ==>
        filterPokemons.history == old(filterPokemons.history) && filterPokemons.pending == old(filterPokemons.pending)
    {
      if term != name {
        name := term;
        filterPokemons.Call(term, now);
        assert filterPokemons.history[|filterPokemons.history| - 1] == CallAt(term, now);
      }
    }

    /**
     The clock reads `now`. When the pending filtering is due it runs, with the
     current text, and the list on screen becomes exactly the entries whose
     name contains it; otherwise nothing on screen changes.
     */
    method Tick(now: int) returns (applied: bool)
      requires Valid()
      modifies this, filterPokemons
      ensures Valid() && name == old(name)
      ensures applied <==> old(filterPokemons.pending).Some? && now >= old(filterPokemons.pending).value.deadline
      ensures applied ==> filtered == Filter(pokemons, name)
      ensures !applied ==> filtered == old(filtered)
      ensures filterPokemons.history == old(filterPokemons.history) + [TickAt(now)]
      ensures applied ==>
        && filterPokemons.pending.None?
        && filterPokemons.delivered == old(filterPokemons.delivered) + [Firing(name, now)]
      ensures !applied ==>
        && filterPokemons.pending == old(filterPokemons.pending)
        && filterPokemons.delivered == old(filterPokemons.delivered)
    {
      var fired := filterPokemons.Tick(now);
      applied := fired.Some?;
      if fired.Some? {
        filtered := Filter(pokemons, fired.value);
      }
      assert filterPokemons.history[..|filterPokemons.history| - 1] == old(filterPokemons.history);
    }
  }
}
