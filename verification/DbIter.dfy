/** DBIter: a two-directional cursor over the user keys visible at one sequence
    number, driven by an iterator over all internal entries. */
module DbIter {
  import opened DbFormat
  import opened Version
  import opened Merger

  // ---------------------------------------------------------------- what is shown

  predicate VisibleAt(es: seq<Entry>, s: nat, i: nat)
    requires i < |es|
  {
    es[i].key.sequence <= s
  }

  /** Entry `i` is what the database shows for its user key: its newest visible
      entry, and not a deletion marker. */
  ghost predicate Shown(es: seq<Entry>, s: nat, i: nat) {
    && i < |es|
    && VisibleAt(es, s, i)
    && es[i].value.Some?
    && forall j :: 0 <= j < i && VisibleAt(es, s, j) ==> es[j].key.user != es[i].key.user
  }

  /** The shown entries are exactly the readable ones: a key reads as `v` at `s` if
      and only if it is shown with value `v`. */
  lemma ShownIsReadable(es: seq<Entry>, s: nat, k: UserKey, v: Value)
    requires Sorted(es)
    ensures Lookup(Elements(es), k, s) == Some(v) <==>
            exists i: nat :: Shown(es, s, i) && es[i].key.user == k && es[i].value == Some(v)
  {
    var S := Elements(es);
    if Lookup(S, k, s) == Some(v) {
      var e := Newest(S, k, s).value;
      var i: nat :| i < |es| && es[i] == e;
      forall j | 0 <= j < i && VisibleAt(es, s, j)
        ensures es[j].key.user != k
      {
        assert es[j] in S && Before(es[j].key, es[i].key);
      }
      assert Shown(es, s, i);
    }
    if i: nat :| Shown(es, s, i) && es[i].key.user == k && es[i].value == Some(v) {
      forall f | f in S && Visible(f, k, s)
        ensures f.key.sequence <= es[i].key.sequence
      {
        var j :| 0 <= j < |es| && es[j] == f;
      }
      assert IsNewest(S, k, s, es[i]);
      NewestUnique(S, k, s, es[i]);
    }
  }

  /** Shown entries appear in strictly increasing user-key order. */
  lemma ShownIncreasing(es: seq<Entry>, s: nat, i: nat, j: nat)
    requires Sorted(es) && i < j && Shown(es, s, i) && Shown(es, s, j)
    ensures es[i].key.user < es[j].key.user
  {
    assert Before(es[i].key, es[j].key);
  }

  lemma ShownOrder(es: seq<Entry>, s: nat, i: nat, j: nat)
    requires Sorted(es) && Shown(es, s, i) && Shown(es, s, j)
    ensures i < j <==> es[i].key.user < es[j].key.user
  {
    if i < j {
      ShownIncreasing(es, s, i, j);
    } else if j < i {
      ShownIncreasing(es, s, j, i);
    }
  }

  /** `r` is the first shown entry from position `from` on; |es| stands for "none". */
  ghost predicate IsFirstShown(es: seq<Entry>, s: nat, from: nat, r: nat) {
    && r <= |es|
    && (r < |es| ==> from <= r && Shown(es, s, r))
    && forall i :: from <= i < r ==> !Shown(es, s, i)
  }

  /** `r` is the last shown entry before position `until`; |es| stands for "none". */
  ghost predicate IsLastShown(es: seq<Entry>, s: nat, until: nat, r: nat) {
    if r == |es| then
      forall i :: 0 <= i < until && i < |es| ==> !Shown(es, s, i)
    else
      r < until && Shown(es, s, r) && forall i :: r < i < until && i < |es| ==> !Shown(es, s, i)
  }

  /** `r` is the first shown entry whose user key is not below `target`. */
  ghost predicate IsFirstShownAtOrAfter(es: seq<Entry>, s: nat, target: UserKey, r: nat) {
    && r <= |es|
    && (r < |es| ==> Shown(es, s, r) && target <= es[r].key.user)
    && forall i: nat :: i < r && Shown(es, s, i) ==> es[i].key.user < target
  }

  // ---------------------------------------------------------------- the map cursor

  /** `k` is in the map a reader at `s` sees. */
  ghost predicate Readable(es: seq<Entry>, s: nat, k: UserKey) {
    Lookup(Elements(es), k, s).Some?
  }

  /** A shown cursor is on a readable key, with the value that key reads as. */
  lemma CursorReads(es: seq<Entry>, s: nat, at: nat)
    requires Sorted(es) && Shown(es, s, at)
    ensures Lookup(Elements(es), es[at].key.user, s) == es[at].value
  {
    ShownIsReadable(es, s, es[at].key.user, es[at].value.value);
  }

  /** Next goes to the successor in the map: no readable key is jumped over. */
  lemma NextIsSuccessor(es: seq<Entry>, s: nat, at: nat, r: nat, k: UserKey)
    requires Sorted(es) && Shown(es, s, at) && IsFirstShown(es, s, at + 1, r)
    requires Readable(es, s, k) && es[at].key.user < k
    ensures r < |es| && es[at].key.user < es[r].key.user <= k
  {
    var i := ShownFor(es, s, k);
    ShownOrder(es, s, at, i);
    ShownIncreasing(es, s, at, r);
    if r < i {
      ShownIncreasing(es, s, r, i);
    }
  }

  /** Prev goes to the predecessor in the map. */
  lemma PrevIsPredecessor(es: seq<Entry>, s: nat, at: nat, r: nat, k: UserKey)
    requires Sorted(es) && Shown(es, s, at) && IsLastShown(es, s, at, r)
    requires Readable(es, s, k) && k < es[at].key.user
    ensures r < |es| && k <= es[r].key.user < es[at].key.user
  {
    var i := ShownFor(es, s, k);
    ShownOrder(es, s, i, at);
    ShownIncreasing(es, s, r, at);
    if i < r {
      ShownIncreasing(es, s, i, r);
    }
  }

  /** Seek goes to the least readable key that is not below the target. */
  lemma SeekIsLeast(es: seq<Entry>, s: nat, target: UserKey, r: nat, k: UserKey)
    requires Sorted(es) && IsFirstShownAtOrAfter(es, s, target, r)
    requires Readable(es, s, k) && target <= k
    ensures r < |es| && target <= es[r].key.user <= k
  {
    var i := ShownFor(es, s, k);
    if r < i {
      ShownIncreasing(es, s, r, i);
    }
  }

  /** SeekToFirst and SeekToLast go to the ends of the map. */
  lemma EndsAreExtreme(es: seq<Entry>, s: nat, first: nat, last: nat, k: UserKey)
    requires Sorted(es) && IsFirstShown(es, s, 0, first) && IsLastShown(es, s, |es|, last)
    requires Readable(es, s, k)
    ensures first < |es| && last < |es| && es[first].key.user <= k <= es[last].key.user
  {
    var i := ShownFor(es, s, k);
    if first < i {
      ShownIncreasing(es, s, first, i);
    }
    if i < last {
      ShownIncreasing(es, s, i, last);
    }
  }

  lemma ShownFor(es: seq<Entry>, s: nat, k: UserKey) returns (i: nat)
    requires Sorted(es) && Readable(es, s, k)
    ensures Shown(es, s, i) && es[i].key.user == k
  {
    var v := Lookup(Elements(es), k, s).value;
    ShownIsReadable(es, s, k, v);
    i :| Shown(es, s, i) && es[i].key.user == k && es[i].value == Some(v);
  }

  // ---------------------------------------------------------------- scanning

  /** An entry the forward scan may stop at. */
  ghost predicate Candidate(es: seq<Entry>, s: nat, skipping: bool, skip: UserKey, i: nat) {
    Shown(es, s, i) && !(skipping && es[i].key.user <= skip)
  }

  /** What the forward scan knows when it stands at `pos`: visible entries before it
      and from it on share a user key only if that key is to be skipped, and nothing
      smaller than the key to skip lies ahead. */
  ghost predicate ScanOk(es: seq<Entry>, s: nat, pos: nat, skipping: bool, skip: UserKey) {
    && (forall i, j :: 0 <= j < pos <= i < |es| && VisibleAt(es, s, j) && es[j].key.user == es[i].key.user ==>
          skipping && es[i].key.user <= skip)
    && (skipping ==> forall i :: pos <= i < |es| && VisibleAt(es, s, i) ==> es[i].key.user >= skip)
  }

  /** A scan that began at `start` with one key to skip has reached `pos` with
      another: it has passed no candidate, and what is a candidate from here on has
      not changed. */
  ghost predicate Scanned(es: seq<Entry>, s: nat, start: nat, skipping0: bool, skip0: UserKey,
                          pos: nat, skipping: bool, skip: UserKey) {
    && start <= pos
    && ScanOk(es, s, pos, skipping, skip)
    && (forall i: nat :: start <= i < pos ==> !Candidate(es, s, skipping0, skip0, i))
    && (forall i: nat :: pos <= i ==>
          (Candidate(es, s, skipping0, skip0, i) <==> Candidate(es, s, skipping, skip, i)))
  }

  lemma ScanStep(es: seq<Entry>, s: nat, start: nat, skipping0: bool, skip0: UserKey,
                 pos: nat, skipping: bool, skip: UserKey)
    requires Sorted(es) && pos < |es| && Scanned(es, s, start, skipping0, skip0, pos, skipping, skip)
    requires !VisibleAt(es, s, pos) || (es[pos].value.Some? && skipping && es[pos].key.user <= skip)
    ensures Scanned(es, s, start, skipping0, skip0, pos + 1, skipping, skip)
  {
    assert !Candidate(es, s, skipping, skip, pos);
  }

  /** A deletion marker replaces the key to skip without losing a candidate. */
  lemma ScanDeletion(es: seq<Entry>, s: nat, start: nat, skipping0: bool, skip0: UserKey,
                     pos: nat, skipping: bool, skip: UserKey)
    requires Sorted(es) && pos < |es| && Scanned(es, s, start, skipping0, skip0, pos, skipping, skip)
    requires VisibleAt(es, s, pos) && es[pos].value.None?
    ensures Scanned(es, s, start, skipping0, skip0, pos + 1, true, es[pos].key.user)
  {
    forall i | pos < i < |es|
      ensures es[i].key.user >= es[pos].key.user
    {
      assert Before(es[pos].key, es[i].key);
    }
    assert !Candidate(es, s, skipping, skip, pos);
    forall i: nat | pos < i
      ensures Candidate(es, s, skipping, skip, i) <==> Candidate(es, s, true, es[pos].key.user, i)
    {
    }
  }

  /** `r` is the first candidate from `start` on; |es| stands for "none". */
  ghost predicate IsFirstCandidate(es: seq<Entry>, s: nat, start: nat, skipping: bool, skip: UserKey, r: nat) {
    && r <= |es|
    && (r < |es| ==> start <= r && Candidate(es, s, skipping, skip, r))
    && forall i: nat :: start <= i < r ==> !Candidate(es, s, skipping, skip, i)
  }

  /** A value that is not skipped is the first candidate. */
  lemma ScanFound(es: seq<Entry>, s: nat, start: nat, skipping0: bool, skip0: UserKey,
                  pos: nat, skipping: bool, skip: UserKey)
    requires Sorted(es) && pos < |es| && Scanned(es, s, start, skipping0, skip0, pos, skipping, skip)
    requires VisibleAt(es, s, pos) && es[pos].value.Some? && !(skipping && es[pos].key.user <= skip)
    ensures IsFirstCandidate(es, s, start, skipping0, skip0, pos) && Shown(es, s, pos)
  {
    assert Candidate(es, s, skipping, skip, pos);
  }

  lemma ScanStart(es: seq<Entry>, s: nat, start: nat, skipping: bool, skip: UserKey)
    requires ScanOk(es, s, start, skipping, skip)
    ensures Scanned(es, s, start, skipping, skip, start, skipping, skip)
  {
  }

  /** A scan that runs off the end has passed no candidate. */
  lemma ScanEnd(es: seq<Entry>, s: nat, start: nat, skipping0: bool, skip0: UserKey, skipping: bool, skip: UserKey)
    requires Scanned(es, s, start, skipping0, skip0, |es|, skipping, skip)
    ensures IsFirstCandidate(es, s, start, skipping0, skip0, |es|)
  {
  }

  /** The forward scan from at or before a shown entry, past its user key, finds the
      next shown entry. */
  lemma FirstAfter(es: seq<Entry>, s: nat, at: nat, start: nat, r: nat)
    requires Sorted(es) && Shown(es, s, at) && start <= at
    requires IsFirstCandidate(es, s, start, true, es[at].key.user, r)
    ensures IsFirstShown(es, s, at + 1, r)
  {
    forall i: nat | at < i && Shown(es, s, i)
      ensures Candidate(es, s, true, es[at].key.user, i)
    {
      ShownIncreasing(es, s, at, i);
    }
    assert r < |es| ==> at < r || r == at || Before(es[r].key, es[at].key);
  }

  /** With nothing to skip, the scan finds the first shown entry. */
  lemma FirstFrom(es: seq<Entry>, s: nat, start: nat, skip: UserKey, r: nat)
    requires IsFirstCandidate(es, s, start, false, skip, r)
    ensures IsFirstShown(es, s, start, r)
  {
    forall i: nat | start <= i < r
      ensures !Shown(es, s, i)
    {
      assert !Candidate(es, s, false, skip, i);
    }
  }

  /** Entries before an internal-key seek are too small or too new to be shown. */
  lemma FirstAtOrAfter(es: seq<Entry>, s: nat, target: UserKey, r: nat)
    requires Sorted(es) && IsFirstShown(es, s, SeekIndex(es, InternalKey(target, s)), r)
    ensures IsFirstShownAtOrAfter(es, s, target, r)
  {
    var start := SeekIndex(es, InternalKey(target, s));
    forall i: nat | i < r && Shown(es, s, i)
      ensures es[i].key.user < target
    {
      assert i < start;
      assert Before(es[i].key, InternalKey(target, s));
    }
    assert start < r < |es| ==> Before(es[start].key, es[r].key);
  }

  class DBIter {
    const iter: MergingIterator
    const sequence: nat
    var savedKey: UserKey
    var savedValue: Value
    var direction: Direction
    var valid: bool
    ghost var at: nat

    /** `at` is the abstract cursor: the shown entry this iterator stands on. */
    ghost predicate Inv()
      reads this, iter, iter.children
    {
      var es := iter.merged;
      && iter.Inv()
      && at <= |es|
      && (valid <==> at < |es|)
      && (valid ==> Shown(es, sequence, at))
      && (valid && direction == Forward ==> iter.at == at)
      && (valid && direction == Reverse ==>
            && savedKey == es[at].key.user && Some(savedValue) == es[at].value
            && RestsBefore(es, sequence, iter.at, savedKey))
    }

    constructor (iter: MergingIterator, sequence: nat)
      requires iter.Inv()
      ensures Inv() && !valid && this.iter == iter && this.sequence == sequence
    {
      this.iter, this.sequence := iter, sequence;
      savedKey, savedValue := 0.0, [];
      direction, valid := Forward, false;
      at := |iter.merged|;
    }

    function Key(): UserKey
      requires Inv() && valid
      reads this, iter, iter.children
    {
      if direction == Forward then iter.Current().key.user else savedKey
    }

    function Value(): Bytes
      requires Inv() && valid
      reads this, iter, iter.children
    {
      if direction == Forward then iter.Current().value.value else savedValue
    }

    /** Whatever the direction, key and value are those of the abstract cursor. */
    lemma KeyAndValue()
      requires Inv() && valid
      ensures Key() == iter.merged[at].key.user && Some(Value()) == iter.merged[at].value
    {
    }

    /** The key to skip is kept in `savedKey`. */
    method FindNextUserEntry(skipping0: bool)
      requires iter.Inv() && iter.Valid() && direction == Forward
      requires ScanOk(iter.merged, sequence, iter.at, skipping0, savedKey)
      modifies this, iter, iter.children
      ensures Inv() && direction == Forward
      ensures IsFirstCandidate(iter.merged, sequence, old(iter.at), skipping0, old(savedKey), at)
    {
      hide MergingIterator.Inv, Sorted, ScanOk, Scanned, Shown, IsFirstCandidate;
      var skipping := skipping0;
      ghost var es, start, skip0 := iter.merged, iter.at, savedKey;
      ScanStart(es, sequence, start, skipping0, skip0);
      iter.CursorBounds();
      while true
        invariant iter.Inv() && iter.Valid() && direction == Forward
        invariant Scanned(es, sequence, start, skipping0, skip0, iter.at, skipping, savedKey)
        invariant Sorted(es) && iter.at < |es|
        decreases |es| - iter.at
      {
        var ikey := iter.Current().key;
        if ikey.sequence <= sequence && iter.Current().value.None? {
          ScanDeletion(es, sequence, start, skipping0, skip0, iter.at, skipping, savedKey);
          savedKey, skipping := ikey.user, true;
        } else if ikey.sequence <= sequence && !(skipping && ikey.user <= savedKey) {
          ScanFound(es, sequence, start, skipping0, skip0, iter.at, skipping, savedKey);
          valid := true;
          at := iter.at;
          return;
        } else {
          ScanStep(es, sequence, start, skipping0, skip0, iter.at, skipping, savedKey);
        }
        iter.Next();
        iter.CursorBounds();
        if !iter.Valid() {
          break;
        }
      }
      ScanEnd(es, sequence, start, skipping0, skip0, skipping, savedKey);
      valid := false;
      at := |iter.merged|;
    }

    method FindPrevUserEntry()
      requires iter.Inv() && direction == Reverse
      modifies this, iter, iter.children
      ensures Inv()
      ensures IsLastShown(iter.merged, sequence, Unread(|iter.merged|, old(iter.at)), at)
    {
      hide MergingIterator.Inv, Sorted, ScannedBack, Shown, RestsBefore, IsLastShown;
      iter.CursorBounds();
      var valueIsDeletion := true;
      ghost var es, until := iter.merged, Unread(|iter.merged|, iter.at);
      ghost var c: nat := |es|;
      BackStart(es, sequence, until);
      while iter.Valid()
        invariant iter.Inv() && direction == Reverse && Sorted(es) && iter.at <= |es| && (iter.Valid() <==> iter.at < |es|)
        invariant ScannedBack(es, sequence, until, Unread(|es|, iter.at), c) && c <= |es|
        invariant valueIsDeletion <==> c == |es| || es[c].value.None?
        invariant !valueIsDeletion ==> savedKey == es[c].key.user && Some(savedValue) == es[c].value
        decreases Unread(|es|, iter.at)
      {
        var entry := iter.Current();
        if entry.key.sequence <= sequence {
          if !valueIsDeletion && entry.key.user < savedKey {
            break;
          }
          BackVisible(es, sequence, until, iter.at, c);
          c := iter.at;
          valueIsDeletion := entry.value.None?;
          if valueIsDeletion {
            savedValue := [];
          } else {
            savedKey, savedValue := entry.key.user, entry.value.value;
          }
        } else {
          BackInvisible(es, sequence, until, iter.at, c);
        }
        iter.Prev();
        iter.CursorBounds();
      }
      if valueIsDeletion {
        BackNone(es, sequence, until, c);
        valid, direction := false, Forward;
        savedValue := [];
        at := |iter.merged|;
      } else {
        BackFound(es, sequence, until, iter.at, c);
        valid := true;
        at := c;
      }
    }

    method Next()
      requires Inv() && valid
      modifies this, iter, iter.children
      ensures Inv()
      ensures IsFirstShown(iter.merged, sequence, old(at) + 1, at)
    {
      ghost var es, start := iter.merged, at;
      if direction == Reverse {
        direction := Forward;
        if !iter.Valid() {
          iter.SeekToFirst();
        } else {
          iter.Next();
        }
        if !iter.Valid() {
          // The source gives up here; the invariant rules it out.
          assert false;
        }
      } else {
        savedKey := iter.Current().key.user;
      }
      ghost var from := iter.at;
      FindNextUserEntry(true);
      FirstAfter(es, sequence, start, from, at);
    }

    method Prev()
      requires Inv() && valid
      modifies this, iter, iter.children
      ensures Inv()
      ensures IsLastShown(iter.merged, sequence, old(at), at)
    {
      hide MergingIterator.Inv;
      iter.CursorBounds();
      ghost var es := iter.merged;
      if direction == Forward {
        savedKey := iter.Current().key.user;
        while true
          invariant iter.Inv() && iter.Valid() && iter.at <= old(at)
          invariant forall i :: iter.at <= i <= old(at) ==> es[i].key.user == savedKey
          decreases iter.at
        {
          iter.Prev();
          iter.CursorBounds();
          if !iter.Valid() {
            valid, savedValue, at := false, [], |es|;
            return;
          }
          if iter.Current().key.user < savedKey {
            break;
          }
        }
        direction := Reverse;
      }
      FindPrevUserEntry();
    }

    method Seek(target: UserKey)
      requires Inv()
      modifies this, iter, iter.children
      ensures Inv()
      ensures IsFirstShownAtOrAfter(iter.merged, sequence, target, at)
    {
      direction := Forward;
      savedValue := [];
      iter.Seek(InternalKey(target, sequence));
      FindFirst();
      FirstAtOrAfter(iter.merged, sequence, target, at);
    }

    method SeekToFirst()
      requires Inv()
      modifies this, iter, iter.children
      ensures Inv()
      ensures IsFirstShown(iter.merged, sequence, 0, at)
    {
      direction := Forward;
      savedValue := [];
      iter.SeekToFirst();
      FindFirst();
    }

    /** The common tail of Seek and SeekToFirst. */
    method FindFirst()
      requires iter.Inv() && direction == Forward
      requires ScanOk(iter.merged, sequence, iter.at, false, savedKey)
      modifies this, iter, iter.children
      ensures Inv()
      ensures IsFirstShown(iter.merged, sequence, old(iter.at), at)
    {
      if iter.Valid() {
        ghost var start, skip := iter.at, savedKey;
        FindNextUserEntry(false);
        FirstFrom(iter.merged, sequence, start, skip, at);
      } else {
        valid, at := false, |iter.merged|;
      }
    }

    method SeekToLast()
      requires Inv()
      modifies this, iter, iter.children
      ensures Inv()
      ensures IsLastShown(iter.merged, sequence, |iter.merged|, at)
    {
      direction := Reverse;
      savedValue := [];
      iter.SeekToLast();
      FindPrevUserEntry();
    }
  }

  /** Number of entries a backward scan has not read when the internal iterator is
      at `pos`. */
  function Unread(length: nat, pos: nat): (r: nat)
    ensures r <= length
  {
    if pos < length then pos + 1 else 0
  }

  /** A backward scan over the entries before `until` has `left` entries to read and
      last kept entry `c` (|es| stands for "none"): only `c` can be shown. */
  ghost predicate ScannedBack(es: seq<Entry>, s: nat, until: nat, left: nat, c: nat) {
    && left <= until <= |es|
    && c <= |es|
    && (c < |es| ==> left <= c < until && VisibleAt(es, s, c))
    && (forall i: nat :: left <= i < until && i < c ==> !VisibleAt(es, s, i))
    && (forall i: nat :: left <= i < until && i != c ==> !Shown(es, s, i))
  }

  /** Moving backwards, the internal iterator rests on the last visible entry of a
      smaller user key, or is invalid if there is none. */
  ghost predicate RestsBefore(es: seq<Entry>, s: nat, pos: nat, k: UserKey) {
    && pos <= |es|
    && (pos < |es| ==> VisibleAt(es, s, pos) && es[pos].key.user < k)
    && forall i :: 0 <= i < |es| && (pos < |es| ==> pos < i) && VisibleAt(es, s, i) ==> es[i].key.user >= k
  }

  lemma BackStart(es: seq<Entry>, s: nat, until: nat)
    requires until <= |es|
    ensures ScannedBack(es, s, until, until, |es|)
  {
  }

  lemma BackInvisible(es: seq<Entry>, s: nat, until: nat, pos: nat, c: nat)
    requires pos < |es| && ScannedBack(es, s, until, pos + 1, c) && !VisibleAt(es, s, pos)
    ensures ScannedBack(es, s, until, pos, c)
  {
  }

  /** When the scan reaches the beginning with nothing kept, nothing is shown. */
  lemma BackNone(es: seq<Entry>, s: nat, until: nat, c: nat)
    requires ScannedBack(es, s, until, 0, c) && (c == |es| || es[c].value.None?)
    ensures IsLastShown(es, s, until, |es|)
  {
  }

  /** A visible entry read while moving back hides the entry kept so far, or the
      kept entry is a deletion marker; either way only the new one can be shown. */
  lemma BackVisible(es: seq<Entry>, s: nat, until: nat, pos: nat, c: nat)
    requires Sorted(es) && pos < |es| && ScannedBack(es, s, until, pos + 1, c)
    requires VisibleAt(es, s, pos)
    requires c < |es| && es[c].value.Some? ==> es[pos].key.user >= es[c].key.user
    ensures ScannedBack(es, s, until, pos, pos)
  {
    if c < |es| {
      assert Before(es[pos].key, es[c].key);
      assert !Shown(es, s, c);
    }
  }

  /** When the scan stops on a kept value, that value is the last shown entry, and
      the internal iterator rests just before its user key. */
  lemma BackFound(es: seq<Entry>, s: nat, until: nat, pos: nat, c: nat)
    requires Sorted(es) && pos <= |es| && ScannedBack(es, s, until, Unread(|es|, pos), c)
    requires c < |es| && es[c].value.Some?
    requires pos < |es| ==> VisibleAt(es, s, pos) && es[pos].key.user < es[c].key.user
    ensures IsLastShown(es, s, until, c)
    ensures Shown(es, s, c)
    ensures RestsBefore(es, s, pos, es[c].key.user)
  {
    forall j: nat | j < c && VisibleAt(es, s, j)
      ensures pos < |es| && j <= pos && es[j].key.user < es[c].key.user
    {
      assert j < Unread(|es|, pos);
      assert j == pos || Before(es[j].key, es[pos].key);
    }
    forall i: nat | c < i < |es|
      ensures es[i].key.user >= es[c].key.user
    {
      assert Before(es[c].key, es[i].key);
    }
  }
}
