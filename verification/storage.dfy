/** The browser's local storage as the like buttons use it: one entry `liked_<id>`
    per wallpaper, written from a boolean and therefore holding "true" or "false". */
module Storage {

  type Storage = map<string, string>

  function LikedKey(id: string): string
  {
    "liked_" + id
  }

  /** The text `setItem` stores for a boolean. */
  function StoredBool(b: bool): string
  {
    if b then "true" else "false"
  }

  /** `localStorage.getItem('liked_' + id) === 'true'` */
  predicate IsLikedIn(storage: Storage, id: string)
  {
    LikedKey(id) in storage && storage[LikedKey(id)] == "true"
  }

  /** Writing a boolean and reading it back gives the boolean; other ids keep their
      entries. */
  lemma StoreThenRead(storage: Storage, id: string, b: bool, other: string)
    ensures IsLikedIn(storage[LikedKey(id) := StoredBool(b)], id) == b
    ensures other != id ==> IsLikedIn(storage[LikedKey(id) := StoredBool(b)], other) == IsLikedIn(storage, other)
  {
    if other != id {
      assert LikedKey(other) != LikedKey(id) by {
        assert LikedKey(other)[6..] == other && LikedKey(id)[6..] == id;
      }
    }
  }
}
