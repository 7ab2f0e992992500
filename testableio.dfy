/**
 * The writers that the tools and their tests use: `bytes.Buffer` (the
 * in-memory writer behind standard output) and the spy open-file function
 * that the splitters' tests use as their file system.
 *
 * The spy keeps the content of every buffer it hands out in its map, keyed by
 * path; the NopWriteCloser it returns is a handle naming that path, so two
 * writers opened on one path write to one buffer, exactly as the shared
 * pointer does.
 */
module TestableIO {
  import opened Wrappers

  /** bytes.Buffer: a writer whose content only grows. */
  class Buffer {
    var text: string

    constructor ()
      ensures text == []
    {
      text := [];
    }

    /** io.WriteString on a buffer; it never fails. */
    method WriteString(s: string)
      modifies this
      ensures text == old(text) + s
    {
      text := text + s;
    }
  }

  /** The NopWriteCloser the spy hands out, over the buffer of `path`. */
  datatype NopWriteCloser = NopWriteCloser(path: string)

  /**
   * SpyOpenFileFunc: a map from path to buffer, here to the buffer's content.
   * Opening an unseen path registers a new empty buffer; reopening a known
   * path hands out the same buffer again and ignores the open flags, O_TRUNC
   * included, so content accumulates. The spy that the tests build never
   * fails to open a file; `refused` names the paths whose opening fails (none
   * for that spy), so that the callers' error paths can be stated as well.
   * Written, the map of every opened path to its buffer's content, is `m`;
   * `closes` counts the Close calls on the writers handed out.
   */
  class SpyOpenFileFunc {
    var m: map<string, string>
    ghost var closes: nat
    const refused: set<string>

    /** NewSpyOpenFileFunc. */
    constructor ()
      ensures m == map[] && closes == 0 && refused == {}
    {
      m := map[];
      closes := 0;
      refused := {};
    }

    /** A spy that fails to open the given paths. */
    constructor Refusing(refused: set<string>)
      ensures m == map[] && closes == 0 && this.refused == refused
    {
      m := map[];
      closes := 0;
      this.refused := refused;
    }

    /**
     * The OpenFileFunc handed out by the spy. The flag and the permission
     * bits are ignored.
     */
    method OpenFile(path: string, flag: int, perm: int) returns (w: Option<NopWriteCloser>)
      modifies this
      ensures closes == old(closes)
      ensures path in refused ==> w == None && m == old(m)
      ensures path !in refused ==> w == Some(NopWriteCloser(path))
      ensures path !in refused && path in old(m) ==> m == old(m)
      ensures path !in refused && path !in old(m) ==> m == old(m)[path := []]
    {
      if path in refused {
        return None;
      }
      if path !in m {
        m := m[path := []];
      }
      w := Some(NopWriteCloser(path));
    }

    /** NopWriteCloser.Write: forwards to the buffer; every other buffer is unchanged. */
    method Write(w: NopWriteCloser, p: string)
      requires w.path in m
      modifies this
      ensures m == old(m)[w.path := old(m)[w.path] + p] && closes == old(closes)
    {
      m := m[w.path := m[w.path] + p];
    }

    /** NopWriteCloser.Close returns nil and leaves every buffer as it is. */
    method Close(w: NopWriteCloser) returns (ok: bool)
      modifies this
      ensures ok && m == old(m) && closes == old(closes) + 1
    {
      closes := closes + 1;
      ok := true;
    }
  }
}
