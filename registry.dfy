/**
 * The registry of falling letters that the game keeps in its `letters`
 * state: entries `{id, letter, left}` in spawn order, and `removeLetter`'s
 * removal by id.
 */
module Registry {
  import opened Common

  /** One falling word on screen. `letter` is `None` when the word list was
      empty at spawn time, where the source stores `undefined`. */
  datatype Letter = Letter(id: int, letter: Option<string>, left: int)

  /** Ids strictly increase through the registry: the order in which the
      spawner, stamping each letter with the current clock, appended them. */
  predicate IdsIncreasing(letters: seq<Letter>) {
    forall i, j :: 0 <= i < j < |letters| ==> letters[i].id < letters[j].id
  }

  predicate HasId(letters: seq<Letter>, id: int) {
    exists i :: 0 <= i < |letters| && letters[i].id == id
  }

  /** `prev.filter((letter) => letter.id !== id)`. */
  function RemoveById(letters: seq<Letter>, id: int): (r: seq<Letter>)
    ensures |r| <= |letters|
    ensures forall i :: 0 <= i < |r| ==> r[i].id != id
  {
    if letters == [] then []
    else if letters[0].id == id then RemoveById(letters[1..], id)
    else [letters[0]] + RemoveById(letters[1..], id)
  }

  /** Removing an id that is not on screen leaves the registry as it was. */
  lemma {:induction false} RemoveAbsent(letters: seq<Letter>, id: int)
    requires !HasId(letters, id)
    ensures RemoveById(letters, id) == letters
  {
    if letters != [] {
      assert !HasId(letters[1..], id) by {
        forall i | 0 <= i < |letters| - 1 ensures letters[1..][i].id != id {
          assert letters[1..][i] == letters[i + 1];
        }
      }
      RemoveAbsent(letters[1..], id);
    }
  }

  /** Removing the same id twice is the same as removing it once: a match and
      a miss racing for one letter leave the registry as either alone would. */
  lemma RemoveIdempotent(letters: seq<Letter>, id: int)
    ensures RemoveById(RemoveById(letters, id), id) == RemoveById(letters, id)
  {
    var once := RemoveById(letters, id);
    assert !HasId(once, id) by {
      forall i | 0 <= i < |once| ensures once[i].id != id {
        assert once[i] in once;
      }
    }
    RemoveAbsent(once, id);
  }

  /** Removals of two ids commute, so the order in which a match and a miss
      for different letters are delivered does not matter to the registry. */
  lemma {:induction false} RemoveCommutes(letters: seq<Letter>, a: int, b: int)
    ensures RemoveById(RemoveById(letters, a), b) == RemoveById(RemoveById(letters, b), a)
  {
    if letters != [] {
      RemoveCommutes(letters[1..], a, b);
    }
  }

  /** When no other letter shares the id of the one at position `k`,
      removing that id deletes exactly that letter and keeps every other one
      in order. */
  lemma {:induction false} RemoveOnlyAt(letters: seq<Letter>, k: nat)
    requires k < |letters|
    requires forall i :: 0 <= i < |letters| && i != k ==> letters[i].id != letters[k].id
    ensures RemoveById(letters, letters[k].id) == letters[..k] + letters[k + 1..]
  {
    var id := letters[k].id;
    var tail := letters[1..];
    if k == 0 {
      assert !HasId(tail, id) by {
        forall i | 0 <= i < |tail| ensures tail[i].id != id {
          assert tail[i] == letters[i + 1];
        }
      }
      RemoveAbsent(tail, id);
      assert letters[..0] + letters[1..] == tail;
    } else {
      assert tail[k - 1] == letters[k];
      forall i | 0 <= i < |tail| && i != k - 1 ensures tail[i].id != id {
        assert tail[i] == letters[i + 1];
      }
      RemoveOnlyAt(tail, k - 1);
      calc {
        RemoveById(letters, id);
        [letters[0]] + RemoveById(tail, id);
        [letters[0]] + (tail[..k - 1] + tail[k..]);
        { assert [letters[0]] + tail[..k - 1] == letters[..k]; assert tail[k..] == letters[k + 1..]; }
        letters[..k] + letters[k + 1..];
      }
    }
  }

  /** With ids in spawn order, removing the id of the letter at position `k`
      deletes exactly that letter and keeps every other one in order. */
  lemma RemoveUniqueAt(letters: seq<Letter>, k: nat)
    requires IdsIncreasing(letters)
    requires k < |letters|
    ensures RemoveById(letters, letters[k].id) == letters[..k] + letters[k + 1..]
  {
    forall i | 0 <= i < |letters| && i != k ensures letters[i].id != letters[k].id {
      if i < k {
        assert letters[i].id < letters[k].id;
      } else {
        assert letters[k].id < letters[i].id;
      }
    }
    RemoveOnlyAt(letters, k);
  }

  /** `removeLetter` deletes every entry with the given id and nothing else:
      each other letter occurs as often as before. */
  lemma {:induction false} RemoveCounts(letters: seq<Letter>, id: int, l: Letter)
    ensures multiset(RemoveById(letters, id))[l] == if l.id == id then 0 else multiset(letters)[l]
  {
    if letters != [] {
      RemoveCounts(letters[1..], id, l);
      assert letters == [letters[0]] + letters[1..];
    }
  }

  lemma {:induction false} RemoveAboveBound(letters: seq<Letter>, id: int, lo: int)
    requires forall i :: 0 <= i < |letters| ==> lo < letters[i].id
    ensures forall i :: 0 <= i < |RemoveById(letters, id)| ==> lo < RemoveById(letters, id)[i].id
  {
    if letters != [] {
      RemoveAboveBound(letters[1..], id, lo);
    }
  }

  /** Removal keeps the registry in spawn order. */
  lemma {:induction false} RemoveKeepsOrder(letters: seq<Letter>, id: int)
    requires IdsIncreasing(letters)
    ensures IdsIncreasing(RemoveById(letters, id))
  {
    if letters != [] {
      var tail := letters[1..];
      assert IdsIncreasing(tail) by {
        forall i, j | 0 <= i < j < |tail| ensures tail[i].id < tail[j].id {
          assert tail[i] == letters[i + 1] && tail[j] == letters[j + 1];
        }
      }
      RemoveKeepsOrder(tail, id);
      var rest := RemoveById(tail, id);
      if letters[0].id != id {
        forall i | 0 <= i < |tail| ensures letters[0].id < tail[i].id {
          assert tail[i] == letters[i + 1];
        }
        RemoveAboveBound(tail, id, letters[0].id);
        var r := [letters[0]] + rest;
        forall i, j | 0 <= i < j < |r| ensures r[i].id < r[j].id {
          if i == 0 {
            assert r[j] == rest[j - 1];
          } else {
            assert r[i] == rest[i - 1] && r[j] == rest[j - 1];
          }
        }
      }
    }
  }

  /** Appending a letter newer than every one on screen keeps the spawn order. */
  lemma AppendKeepsOrder(letters: seq<Letter>, l: Letter)
    requires IdsIncreasing(letters)
    requires forall m :: m in letters ==> m.id < l.id
    ensures IdsIncreasing(letters + [l])
  {
    var r := letters + [l];
    forall i, j | 0 <= i < j < |r| ensures r[i].id < r[j].id {
      if j == |letters| {
        assert r[i] in letters;
      }
    }
  }
}
