/**
 * What the shells of every generation share around running a command: how
 * a step that may throw ends, how `execute` settles, which node can run,
 * and how a path is taken from the working directory.
 */
module Commands {
  import opened Wrappers
  import opened Text
  import opened Tree

  /** What a step that may throw gives: its value, or the rejection `execute` never recovers from. */
  datatype Attempt<T> = Threw | Done(value: T)

  /**
   * What `execute` settles with: the command's result (None for
   * `undefined`); Aborted when a step threw, after which the promise never
   * settles.
   */
  datatype Outcome = Finished(result: Option<int>) | Aborted

  /** A node `execute` can run: a file whose content is a function. */
  predicate IsCommand(n: Node) {
    n.File? && n.content.Program?
  }

  /** The path `getPath`, `createFile` and `openFile` use: `path` when it starts with `/`, else `pwd/path`. */
  function FromCwd(pwd: string, path: string): (r: string)
    ensures StartsWith(path, "/") ==> r == path
    ensures StartsWith(pwd, "/") || pwd == [] ==> StartsWith(r, "/")
    ensures |path| <= |r| && r[|r| - |path|..] == path
  {
    if StartsWith(path, "/") then path else pwd + "/" + path
  }
}
