/** `deleteNoFail` of lib/utils.js: the delete both cleanup paths use. */
module Utils {
  import opened FileSystem

  /**
   * `deleteNoFail(p)`: nothing happens for an empty path or one that
   * `existsSync` does not find (a dangling link included); otherwise an
   * lstat directory is removed with `rmdirSync` and anything else, a link
   * included, with `unlinkSync`. Errors of those two calls are not caught:
   * the call fails exactly when `p` is a directory that still has entries.
   */
  function DeleteNoFailStep(e: Entries, p: string): (r: Step)
    ensures r.status.Err? <==> p != "" && Exists(e, p) && e[p].Dir? && HasChild(e, p)
    ensures r.status.Err? ==> r.status.code == ENOTEMPTY && r.entries == e
    ensures r.status.Ok? && p != "" && Exists(e, p) ==> r.entries == e - {p}
    ensures p == "" || !Exists(e, p) ==> r == Step(Ok, e)
  {
    if p == "" || !Exists(e, p) then Step(Ok, e)
    else if e[p].Dir? then Rmdir(e, p)
    else Unlink(e, p)
  }

  method DeleteNoFail(disk: Disk, p: string) returns (st: Status)
    modifies disk`entries
    ensures Step(st, disk.entries) == DeleteNoFailStep(old(disk.entries), p)
  {
    if p != "" && Exists(disk.entries, p) {
      if disk.entries[p].Dir? {
        st := disk.RmdirSync(p);
      } else {
        st := disk.UnlinkSync(p);
      }
    } else {
      st := Ok;
    }
  }
}
