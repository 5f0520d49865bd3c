/** The part of the file system the upload server touches, keyed by the
    path strings the server builds: directories, regular files with their
    bytes, symbolic links, the order `os.listdir` reports each directory's
    entries in, and the free space that decides whether a write succeeds. */
module Files {
  import opened Util
  import Paths

  datatype Store = Store(
    dirs: set<string>,
    files: map<string, seq<byte>>,
    links: set<string>,
    listing: map<string, seq<string>>,
    free: nat)
  {
    /** `os.path.exists(p)`. */
    predicate Exists(p: string)
    {
      p in dirs || p in files
    }

    /** `open(p, "wb")` succeeds: `p` names no directory, does not end in
        `/`, and its parent directory exists. */
    predicate CanCreate(p: string)
    {
      !EndsWith(p, '/') && p !in dirs && Paths.Dirname(p) in dirs
    }

    /** The store after `open(p, "wb")`: `p` is an empty file, listed in
        its parent directory, and the space it held is free again. */
    function Created(p: string): (s: Store)
      requires CanCreate(p)
      ensures s.files == files[p := []] && s.dirs == dirs && s.links == links
      ensures p in s.files && s.files[p] == []
    {
      var parent := Paths.Dirname(p);
      var name := Paths.Basename(p);
      var listing' := if parent in listing && name !in listing[parent]
        then listing[parent := listing[parent] + [name]] else listing;
      Store(dirs, files[p := []], links, listing', free + (if p in files then |files[p]| else 0))
    }

    /** The store after `f.write(data)` on the open file `p`: the bytes are
        appended and take up free space. */
    function Appended(p: string, data: seq<byte>): (s: Store)
      requires p in files && |data| <= free
      ensures s.files == files[p := files[p] + data] && s.free == free - |data|
    {
      Store(dirs, files[p := files[p] + data], links, listing, free - |data|)
    }

    /** A file created and then written holds what was written. */
    lemma CreatedThenAppended(p: string, data: seq<byte>)
      requires CanCreate(p) && p !in files && |data| <= free
      ensures Created(p).Appended(p, data).files == files[p := data]
    {
      assert [] + data == data;
    }

    /** `f.write(data)`: `None` when the data does not fit, where Python
        raises `OSError`. */
    function Write(p: string, data: seq<byte>): (r: Option<Store>)
      requires p in files
      ensures r.Some? <==> |data| <= free
      ensures r.Some? ==> r.value == Appended(p, data)
    {
      if |data| <= free then Some(Appended(p, data)) else None
    }
  }

  /** The file system as a mutable object: the state the handler's calls
      to `open` and `write` change. */
  class Disk {
    var store: Store

    constructor (s: Store)
      ensures store == s
    {
      store := s;
    }

    method Create(p: string) returns (ok: bool)
      modifies this
      ensures ok == old(store).CanCreate(p)
      ensures ok ==> store == old(store).Created(p)
      ensures !ok ==> store == old(store)
    {
      ok := store.CanCreate(p);
      if ok {
        store := store.Created(p);
      }
    }

    method Write(p: string, data: seq<byte>) returns (ok: bool)
      requires p in store.files
      modifies this
      ensures ok == (|data| <= old(store).free)
      ensures ok ==> store == old(store).Appended(p, data)
      ensures !ok ==> store == old(store)
    {
      ok := |data| <= store.free;
      if ok {
        store := store.Appended(p, data);
      }
    }
  }
}
