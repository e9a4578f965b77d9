/**
 * The operating system's directory-watch facility (`java.nio.file.WatchService`)
 * as the engine sees it: registering a directory hands back a key, a
 * directory registered twice hands back the same key, and re-arming a key
 * after a batch may report that the directory is gone, which cancels the key.
 * The notifications themselves are an input: a sequence of batches.
 */
module Watching {
  import opened Wrappers
  import opened Paths
  import opened FileSystems

  /** The kinds of `StandardWatchEventKinds`. */
  datatype Kind = EntryCreate | EntryDelete | EntryModify | Overflow

  /** A watch key, identified by a number. */
  type Key = nat

  /** One notification: its kind, the name of the entry relative to the
      watched directory, and, for the attempts made to process it, which
      ones the environment makes fail (a locked file, a full disk). */
  datatype WatchEvent = WatchEvent(kind: Kind, name: string, faults: seq<bool>)

  /** What one `take()` returns: the key that was signalled, its pending
      events, and whether `reset()` afterwards finds the key still valid. */
  datatype Batch = Batch(key: Key, events: seq<WatchEvent>, resetOk: bool)

  class WatchService {
    /** The key of each directory currently registered. */
    var registrations: map<Path, Key>
    var nextKey: Key

    ghost predicate Valid()
      reads this
    {
      && (forall p :: p in registrations ==> registrations[p] < nextKey)
      && (forall p, q :: p in registrations && q in registrations && p != q ==> registrations[p] != registrations[q])
    }

    constructor ()
      ensures Valid() && registrations == map[] && nextKey == 0
    {
      registrations := map[];
      nextKey := 0;
    }

    /** `dir.register(watcher, ...)`: a directory that is not there, or is a
        file, cannot be registered; one already registered keeps its key. */
    method Register(t: Tree, dir: Path) returns (r: Result<Key, IoError>)
      requires Valid()
      modifies this
      ensures Valid()
      ensures dir !in t ==> r == Failure(NoSuchFile(dir)) && unchanged(this)
      ensures dir in t && t[dir].File? ==> r == Failure(NotADirectory(dir)) && unchanged(this)
      ensures IsDirectory(t, dir) && dir in old(registrations) ==>
        r == Success(old(registrations)[dir]) && unchanged(this)
      ensures IsDirectory(t, dir) && dir !in old(registrations) ==>
        && r == Success(old(nextKey))
        && registrations == old(registrations)[dir := old(nextKey)]
        && nextKey == old(nextKey) + 1
    {
      if dir !in t {
        return Failure(NoSuchFile(dir));
      }
      if t[dir].File? {
        return Failure(NotADirectory(dir));
      }
      if dir in registrations {
        return Success(registrations[dir]);
      }
      r := Success(nextKey);
      registrations := registrations[dir := nextKey];
      nextKey := nextKey + 1;
    }

    /** `key.reset()`: reports whether the key is still valid; an invalid key
        is cancelled, so its directory is no longer registered. */
    method Reset(key: Key, stillValid: bool) returns (valid: bool)
      requires Valid()
      modifies this
      ensures Valid() && valid == stillValid && nextKey == old(nextKey)
      ensures valid ==> registrations == old(registrations)
      ensures !valid ==> registrations == map p | p in old(registrations) && old(registrations)[p] != key :: old(registrations)[p]
    {
      valid := stillValid;
      if !valid {
        registrations := map p | p in registrations && registrations[p] != key :: registrations[p];
      }
    }
  }
}
