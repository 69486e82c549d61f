/**
 A DICT_CACHE of util/dict_cache.c as an object whose operations change it in place.
 */
module DictCacheObject {
  import opened Wrappers
  import opened DictTable
  import DictCache

  class DictCacheHandle {
    // The database: its entries and its current entry.
    var entries: seq<Pair>
    var cursor: Option<Key>
    // Delete-behind support.
    var saved: Option<Pair>
    var deleting: bool
    // Cleanup statistics.
    var retained: nat
    var dropped: nat

    ghost function View(): DictCache.Cache
      reads this
    {
      DictCache.Cache(entries, cursor, saved, deleting, retained, dropped)
    }

    /** dict_cache_open on an existing table */
    constructor (entries: seq<Pair>)
      requires Distinct(entries)
      ensures DictCache.Inv(View()) && View() == DictCache.Cache(entries, None, None, false, 0, 0)
    {
      this.entries := entries;
      cursor, saved, deleting, retained, dropped := None, None, false, 0, 0;
    }

    /** dict_cache_lookup */
    method Lookup(key: Key) returns (value: Option<Value>)
      requires DictCache.Sound(View())
      ensures value == if key in DictCache.Logical(View()) then Some(DictCache.Logical(View())[key]) else None
    {
      DictCache.LookupIsLogical(View(), key);
      if deleting && DictCache.IsSaved(DictCache.Cache(entries, cursor, saved, deleting, retained, dropped), key) {
        value := None;
      } else {
        value := Get(entries, key);
      }
    }

    /** dict_cache_update */
    method Update(key: Key, value: Value, pos: nat)
      requires DictCache.Sound(View())
      modifies this
      ensures View() == DictCache.Update(old(View()), key, value, pos)
      ensures DictCache.Logical(View()) == DictCache.Logical(old(View()))[key := value]
      ensures DictCache.Inv(old(View())) ==> DictCache.Inv(View())
    {
      DictCache.UpdateIsLogical(View(), key, value, pos);
      ghost var was := View();
      if deleting && saved.Some? && saved.value.key == key {
        deleting := false;
      }
      entries := Put(entries, key, value, pos);
      if DictCache.Inv(was) { DictCache.UserKeeps(was, DictCache.UpdateOp(key, value, pos)); }
    }

    /** dict_cache_delete: the result says whether there was anything to delete. */
    method Delete(key: Key) returns (found: bool)
      requires DictCache.Sound(View())
      modifies this
      ensures View() == DictCache.Delete(old(View()), key)
      ensures DictCache.Logical(View()) == DictCache.Logical(old(View())) - {key}
      ensures DictCache.Inv(old(View())) ==> DictCache.Inv(View()) && found == (key in AsMap(old(entries)))
    {
      DictCache.DeleteIsLogical(View(), key);
      AsMapGet(entries, key);
      ghost var was := View();
      if saved.Some? && saved.value.key == key {
        deleting := true;
        found := true;
      } else {
        found := Has(entries, key);
        entries := Del(entries, key);
      }
      if DictCache.Inv(was) { DictCache.UserKeeps(was, DictCache.DeleteOp(key)); }
    }

    /** dict_seq on the database.  NEXT needs a current entry that is stored. */
    method DbSequence(direction: DictCache.Direction) returns (result: Option<Pair>)
      requires direction.SeqNext? ==> cursor.Some? && Has(entries, cursor.value)
      modifies `cursor
      ensures result == if direction.SeqFirst? then First(entries) else After(entries, old(cursor).value)
      ensures cursor == if result.Some? then Some(result.value.key) else None
    {
      result := if direction.SeqFirst? then First(entries) else After(entries, cursor.value);
      cursor := if result.Some? then Some(result.value.key) else None;
    }

    /** dict_cache_sequence */
    method Sequence(direction: DictCache.Direction) returns (result: Option<Pair>)
      requires DictCache.Sound(View()) && (direction.SeqNext? ==> cursor.Some? && Has(entries, cursor.value))
      modifies this
      ensures View() == DictCache.Sequence(old(View()), direction) && result == saved
      ensures DictCache.Sound(View()) && DictCache.Logical(View()) == DictCache.Logical(old(View()))
      ensures DictCache.Inv(old(View())) && (direction.SeqFirst? ==> DictCache.SafeFirst(old(View())))
              ==> DictCache.Inv(View())
    {
      ghost var was := View();
      DictCache.SequenceIsLogical(was, direction);
      if DictCache.Inv(was) && (direction.SeqFirst? ==> DictCache.SafeFirst(was)) {
        DictCache.SequenceKeeps(was, direction);
      }
      result := DbSequence(direction);
      if result.Some? && result.value.key == DictCache.STAMP {
        StampStored(was, direction);
        result := DbSequence(DictCache.SeqNext);
      }

      var previous := saved;
      saved := result;

      if deleting {
        deleting := false;
        entries := Del(entries, previous.value.key);
      }
    }

    /** The time stamp, just found by the enumeration, is stored. */
    lemma StampStored(c: DictCache.Cache, direction: DictCache.Direction)
      requires Distinct(c.entries)
      requires var r := if direction.SeqFirst? then First(c.entries)
               else if c.cursor.Some? then After(c.entries, c.cursor.value) else None;
               r.Some? && r.value.key == DictCache.STAMP
      ensures Has(c.entries, DictCache.STAMP)
    {
      if direction.SeqFirst? {
        IndexOf(c.entries, 0);
      } else {
        IndexOf(c.entries, Index(c.entries, c.cursor.value) + 1);
      }
    }

    /** dict_cache_clean_event; the result says whether the next event comes at once or after the cleanup interval. */
    method CleanEvent(valid: Pair -> bool, stamp: Value, pos: nat) returns (more: bool)
      requires DictCache.Inv(View())
      modifies this
      ensures View() == DictCache.CleanEvent(old(View()), valid, stamp, pos)
      ensures DictCache.Inv(View()) && more == saved.Some?
    {
      DictCache.CleanKeeps(View(), valid, stamp, pos);
      var direction := DictCache.SeqNext;
      if saved == None {
        retained, dropped := 0, 0;
        direction := DictCache.SeqFirst;
      }
      var current := Sequence(direction);
      if current.Some? {
        if !valid(current.value) {
          deleting := true;
          dropped := dropped + 1;
        } else {
          retained := retained + 1;
        }
        more := true;
      } else {
        retained, dropped := 0, 0;
        entries := Put(entries, DictCache.STAMP, stamp, pos);
        more := false;
      }
    }
  }
}
