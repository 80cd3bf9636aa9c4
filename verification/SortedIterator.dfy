/** The contract every iterator of the repository keeps: a cursor over a strictly
    sorted list of entries that may stand on an entry or be invalid. */
module SortedIterator {
  import opened DbFormat
  import opened Version

  class ListIterator {
    const entries: seq<Entry>
    var pos: nat

    ghost predicate WellFormed()
      reads this
    {
      Sorted(entries) && pos <= |entries|
    }

    predicate Valid()
      reads this
    {
      pos < |entries|
    }

    function Key(): InternalKey
      requires Valid()
      reads this
    {
      entries[pos].key
    }

    constructor (entries: seq<Entry>)
      requires Sorted(entries)
      ensures WellFormed() && !Valid() && this.entries == entries
    {
      this.entries := entries;
      pos := |entries|;
    }

    method SeekToFirst()
      requires WellFormed()
      modifies this`pos
      ensures WellFormed() && pos == 0
    {
      pos := 0;
    }

    method SeekToLast()
      requires WellFormed()
      modifies this`pos
      ensures WellFormed() && pos == if |entries| == 0 then 0 else |entries| - 1
    {
      pos := if |entries| == 0 then 0 else |entries| - 1;
    }

    method Seek(target: InternalKey)
      requires WellFormed()
      modifies this`pos
      ensures WellFormed() && pos == SeekIndex(entries, target)
    {
      pos := SeekIndex(entries, target);
    }

    method Next()
      requires WellFormed() && Valid()
      modifies this`pos
      ensures WellFormed() && pos == old(pos) + 1
    {
      pos := pos + 1;
    }

    method Prev()
      requires WellFormed() && Valid()
      modifies this`pos
      ensures WellFormed() && pos == if old(pos) == 0 then |entries| else old(pos) - 1
    {
      pos := if pos == 0 then |entries| else pos - 1;
    }
  }
}
