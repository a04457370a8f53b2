# cmsh in Dafny

cmsh is a toy shell written in JavaScript that runs in a browser page or a
terminal. It comes in three generations, and all three share the same core:

- a variable store with `$NAME` / `${NAME}` substitution;
- a command line parser that splits off assignments, arguments and `>`/`<`
  redirections;
- an in-memory file tree with `get`, `create` and `open`;
- file handles that append to or overwrite a file;
- a lookup of commands through `PATH`;
- `execute`, which runs one command line with its redirections.

The three generations are:

- `shell.js`, the first one, a single file;
- `app/`, the second one, with `buildCmdLine` as a separate function;
- `cmsh/`, the current one. It adds mounted file systems (`jfs`, `httpfs`,
  `wsfs`, `tmpfs`) behind a mount table read from an fstab. It also adds a
  state-machine tokenizer (`Line.build`) and a `RANDOM` variable.

This project models that core and proves properties about it.

Each JavaScript object graph becomes data:

- A file tree is a `Node` value: a directory with named children, or a file
  whose content is text, a command or a remote file.
- The object holding a tree (`this.files['/']`) is a `Store`, a class whose
  `root` the operations replace.
- A live node that a handle or `get(path, true)` returns is a location, that
  is, the list of child names from the root.
- A JavaScript plain object used as a dictionary is a `Dict`: the keys in
  insertion order plus a map.
- Every object that the source updates in place is a class. These are the
  variable store, the file handles, the file systems, the mount table, the
  shells and the tokenizer's state machine. Their methods name what they
  modify.
- Loops are methods with invariants. Each one is proved against a function
  that states what it computes, and lemmas state what those functions
  promise.

| file | models |
|---|---|
| `text.dfy` | `split`, `join` and `String.replace` with a string pattern |
| `dict.dfy` | plain objects used as dictionaries |
| `tree.dfy` | the file tree and its stores |
| `environment.dfy` | `Environment` (cmsh, and the one in `shell.js`) |
| `state_machine.dfy` | `StateMachine` |
| `line.dfy` | `Line.build` |
| `build_cmd_line.dfy` | `buildCmdLine` (app) and `_buildCmdLine` (shell.js) |
| `base_fs.dfy` | `BaseFileSystem` |
| `backends.dfy` | the tmp, web-storage, JavaScript and HTTP file systems |
| `file_handle.dfy` | `FileHandle` (cmsh, app, shell.js) |
| `mount_fs.dfy` | the cmsh `FileSystem` with its mount table |
| `legacy_fs.dfy` | the `FileSystem` of app and shell.js |
| `executables.dfy` | `getExecutablesInPath` |
| `io.dfy` | writing a command's output through the redirection handles, and closing them |
| `scheduler.dfy` | `trap` and `interruptible` |
| `prompt.dfy` | `getPrompt` |
| `shell.dfy` | the cmsh `Shell` |
| `legacy_shell.dfy` | the `Shell` of app and shell.js |

## Model

| member | source | states |
|---|---|---|
| Text.Split | cmsh/classes/fileSystems/BaseFileSystem.js:9 | `split` with a one-character separator gives at least one part, and no part holds the separator |
| Text.JoinSplit | cmsh/classes/fileSystems/TmpFileSystem.js:37-40 | splitting and then joining with the same separator gives the string back |
| Text.SplitJoin | cmsh/classes/fileSystems/BaseFileSystem.js:70 | joining parts that do not hold the separator and splitting again gives the parts back |
| Text.SplitAtFirst | cmsh/classes/Line.js:152-153 | the first part of a split is the text before the first separator; the other parts are the split of the rest |
| Text.BeforeAfter | cmsh/classes/Line.js:152-154 | the text before the first separator never holds it; when the separator occurs, that text, the separator and the rest rebuild the string |
| Text.ReplaceFirstAbsent | cmsh/classes/Shell.js:107 | `replace` with a string pattern that does not occur leaves the string unchanged |
| Text.ReplaceFirstSplits | cmsh/classes/Shell.js:107 | `replace` with a string pattern replaces exactly its first occurrence and keeps the text on both sides |
| Text.NatToString | cmsh/classes/Environment.js:14 | a number is written as one or more decimal digits |
| Dict.Put | cmsh/classes/Environment.js:26-30 | `obj[k] = v`: `k` maps to `v` and every other key keeps its value; a new key goes to the end of the key order, and an existing one keeps its place |
| Dict.AssignGet | cmsh/classes/Shell.js:292 | after the keys of `e` are assigned in turn, an assigned key holds e's value and any other key keeps its old one |
| Tree.InsertFinds | cmsh/classes/fileSystems/TmpFileSystem.js:46 | `directory.children[file] = what`: the new node is found under its name, and the parent is still a directory |
| Tree.InsertKeeps | cmsh/classes/fileSystems/TmpFileSystem.js:45-46 | inserting under a free name keeps every location of the tree; the node at a location is unchanged unless the location is the directory or one of its ancestors |
| Tree.InsertOnlyAdds | cmsh/classes/fileSystems/TmpFileSystem.js:45-46 | an insertion adds locations only inside the new child |
| Commands.FromCwd | cmsh/classes/Shell.js:110-115 | a path that starts with `/` is kept; any other path is put after PWD and `/`; the result ends with the path and is absolute when PWD is |
| Machine.StateMachine.constructor | cmsh/classes/StateMachine.js:3-7 | the state is the one named by the initial state; the data is its second element when there is one, otherwise `{}` |
| Machine.StateMachine.Next | cmsh/classes/StateMachine.js:13-25 | `next(token)` calls the current handler once, then moves to the state and data it returned (`{}` for a bare name), which is one step of `Run` |
| Machine.RunAppend | cmsh/classes/StateMachine.js:13-25 | feeding two token sequences one after the other is the same as feeding their concatenation |
| Machine.RunSnoc | cmsh/classes/StateMachine.js:13-25 | feeding one more token runs the current handler exactly once on it |
| Scheduler.FirstSet | cmsh/classes/Shell.js:199 | the first step that sees the SIGINT flag: every flag before it is clear and the flag there is set |
| Scheduler.OutcomeMeaning | cmsh/classes/Shell.js:194-216 | a flag seen before a step cancels the run: it resolves 1 after exactly the steps before the signal, and the flag is cleared; otherwise every step runs and the run resolves what the generator returned |
| Scheduler.StaleSignal | cmsh/classes/Shell.js:86-95 | a SIGINT during the last step of one run cancels the next run before its first step |
| Scheduler.Flags.constructor | cmsh/classes/Shell.js:9-10 | no command runs and no SIGINT is pending |
| Scheduler.Flags.Trap | cmsh/classes/Shell.js:86-95 | a SIGINT sets the flag while a command runs and exits when none runs; any other signal changes nothing |
| Scheduler.Flags.Interruptible | cmsh/classes/Shell.js:194-216 | the result, the number of steps run and the flag left over are those of `Outcome`; `inProcess` is clear afterwards |
| Prompt.Prompt | cmsh/classes/Shell.js:105-108 | `$` when PS1 is unset; the prompt exists exactly when every variable it reads is set (cmsh also reads PWD and HOME first) |
| Prompt.PromptFields | cmsh/classes/Shell.js:107 | a PS1 `a\ub\hc\wd`, with each escape's first occurrence the intended one, shows `a`, USER, `b`, HOSTNAME, `c`, the directory, `d` |
| Prompt.TildeAtHome | cmsh/classes/Shell.js:106 | in cmsh a PS1 of `\w` shows `~` when PWD is HOME; the earlier generations show PWD itself |
| Prompt.ReplacesInsideUser | app/classes/Shell.js:162 | the replacements work on the text built so far: a USER holding `\h` gets HOSTNAME in its place |
| Env.CloseBrace | cmsh/classes/Environment.js:39 | `\{[^}]*\}` ends at the first `}`: it is at the index found, and no `}` comes before it |
| Env.WordLength | cmsh/classes/Environment.js:39 | `\S*` takes the longest run without whitespace |
| Env.ExpandLiteralPrefix | cmsh/classes/Environment.js:39 | text without `$` reaches the output unchanged and is not scanned again |
| Env.LoneDollar | cmsh/classes/Environment.js:39-57 | a `$` followed by whitespace or by the end of the string stays `$` |
| Env.BracedMatch | cmsh/classes/Environment.js:39 | `${NAME}` is one match whose braced name is NAME; the text after `}` is scanned on |
| Env.BracedReplacement | cmsh/classes/Environment.js:40-57 | `${NAME}` becomes the line-local value, else the stored value, else the text as written |
| Env.BracedReference | cmsh/classes/Environment.js:39-57 | the same inside a string: the local value first, then the store, otherwise the reference as written, and the rest of the string expanded |
| Env.GreedyName | cmsh/classes/Environment.js:49-57 | without braces the name is the whole run of non-whitespace after `$`; an unknown name is kept as written |
| Env.NoRescan | cmsh/classes/Environment.js:39 | a substituted value is inserted as it is and never expanded again |
| Env.GreedyDash | cmsh/classes/Environment.js:39 | `$X-2` looks up a variable named `X-2`, so it stays `$X-2` when only X is set |
| Env.Lines | cmsh/classes/Environment.js:33-35 | one `key=value` line per key, in key order |
| Env.RenderNewKey | cmsh/classes/Environment.js:26-36 | setting a new key adds its line after all the others in `toString()` |
| Env.RenderLines | cmsh/classes/Environment.js:32-36 | splitting `toString()` at newlines gives one line per key, in key order, when no key or value holds a newline |
| Env.Environment.constructor | cmsh/classes/Environment.js:2-9 | the store holds the initial values in their key order |
| Env.Environment.Get | cmsh/classes/Environment.js:11-17 | in cmsh RANDOM yields some number in [0, 32767); any other key yields its stored value |
| Env.Environment.Set | cmsh/classes/Environment.js:26-30 | the key maps to the value, and every other key and the key order are kept (Dict.Put) |
| Executables.WithBuiltins | cmsh/classes/Shell.js:165-175 | `exit` and `clear` map to the built-ins, and every other name keeps its entry |
| Executables.AddExecutablesGet | cmsh/classes/Shell.js:157-162 | a directory's child is added when it is executable; every other name keeps its entry |
| Executables.AddEntryGet | cmsh/classes/Shell.js:152-163 | a PATH entry that is a directory adds its executable children; a missing entry or a file adds nothing |
| Executables.LaterPathWins | cmsh/classes/Shell.js:152-163 | the table maps a name to the child of the last PATH directory that offers it, and has no entry when none offers it |
| BaseFs.Normalise | cmsh/classes/fileSystems/BaseFileSystem.js:58-69 | the names kept hold no separator and no empty, `.` or `..` segment |
| BaseFs.ResolvePath | cmsh/classes/fileSystems/BaseFileSystem.js:54-71 | `resolvePath` is `/` when no name is left, otherwise the names joined after `/`; the loop computes `Normalise` |
| BaseFs.NormaliseProper | cmsh/classes/fileSystems/BaseFileSystem.js:58-69 | a path made only of proper names keeps them all, in order |
| BaseFs.ResolvedShape | cmsh/classes/fileSystems/BaseFileSystem.js:54-71 | a resolved path starts with `/` and has no empty, `.` or `..` segment after the first |
| BaseFs.ResolveIdempotent | cmsh/classes/fileSystems/BaseFileSystem.js:54-71 | resolving a resolved path changes nothing |
| BaseFs.NoClimbAboveRoot | cmsh/classes/fileSystems/BaseFileSystem.js:62-66 | `..` at the root is ignored: `/a/../../b` is `/b` |
| BaseFs.WalkFinds | cmsh/classes/fileSystems/BaseFileSystem.js:8-25 | the walk skips empty segments; it succeeds exactly when the node named by the other segments exists, and it stops there |
| BaseFs.WalkNone | cmsh/classes/fileSystems/BaseFileSystem.js:11-21 | once a segment is missing, the walk stays failed |
| BaseFs.Get | cmsh/classes/fileSystems/BaseFileSystem.js:6-35 | `get(path, pointer)`: `false` when the walk fails, else the live node, else a copy with `fullPath` and `basename` |
| BaseFs.HasExactly | cmsh/classes/fileSystems/BaseFileSystem.js:50-52 | `has` holds exactly when the node named by the non-empty segments exists |
| BaseFs.SnapshotOf | cmsh/classes/fileSystems/BaseFileSystem.js:31-34 | a copy reports the path as given, its last segment, and the node found |
| BaseFs.BuildKeysEntries | cmsh/classes/fileSystems/BaseFileSystem.js:74-111 | every key of a description gets the node its value converts to; a value that is not a directory, a string or a function is left out |
| BaseFs.CreatedKinds | cmsh/classes/fileSystems/BaseFileSystem.js:80-106 | a directory is writeable only when `writeable === true`; a string becomes a read-only text file; a function becomes a read-only executable |
| Backends.InitialRoot | cmsh/classes/fileSystems/TmpFileSystem.js:7-14 | a new writable file system has a writeable, empty root directory |
| Backends.ParentSplit | cmsh/classes/fileSystems/TmpFileSystem.js:37-40 | the path splits into the directory's segments and the leaf, and the joined directory path splits back into those segments |
| Backends.ParentWalk | cmsh/classes/fileSystems/TmpFileSystem.js:40 | looking up the joined directory path walks the same way as its segments |
| Backends.MissingHasName | cmsh/classes/fileSystems/TmpFileSystem.js:45-47 | a path that is missing although its directory exists ends in a name, not in a `/` |
| Backends.CreateThenGet | cmsh/classes/fileSystems/TmpFileSystem.js:45-47 | after a successful `create` the path finds the new, writeable, empty file in the directory that was looked up |
| Backends.ExistingNotCreatable | cmsh/classes/fileSystems/TmpFileSystem.js:45-49 | `create` refuses a path that already names a file or a directory |
| Backends.CreateKeeps | cmsh/classes/fileSystems/TmpFileSystem.js:45-47 | `create` never overwrites: every node that was there still is, and every node off the path to the new file is the same |
| Backends.CreatedKeeps | cmsh/classes/fileSystems/TmpFileSystem.js:45-46 | `create` keeps every file as it was |
| Backends.CreatedGrows | cmsh/classes/fileSystems/TmpFileSystem.js:45-46 | `create` adds exactly one node, the new empty file |
| Backends.OpenKeeps | cmsh/classes/fileSystems/TmpFileSystem.js:17-26 | after `open` every file is unchanged and the only new node is an empty file; a handle with a node is on the node the path names |
| Backends.HttpOpenThrows | cmsh/classes/fileSystems/HttpFileSystem.js:55-66 | `open` on the HTTP file system never succeeds on a modelled tree, because it calls the node it found |
| Backends.Backend.Tmp | cmsh/classes/fileSystems/TmpFileSystem.js:5-15 | a tmp file system starts with a writeable, empty root |
| Backends.Backend.WebStorage | cmsh/classes/fileSystems/WebStorageFileSystem.js:32-43 | a web-storage file system starts from the tree saved under the page's one `'files'` key, or from a writeable, empty root when nothing is saved |
| Backends.Backend.Loaded | cmsh/classes/fileSystems/JavaScriptFileSystem.js:5-18 | a JavaScript or HTTP file system holds the tree its module or index gives |
| Backends.Backend.Get | cmsh/classes/fileSystems/BaseFileSystem.js:6-35 | the inherited walk on this file system's tree |
| Backends.Backend.Create | cmsh/classes/fileSystems/TmpFileSystem.js:28-50 | `undefined` on the JavaScript and HTTP file systems; otherwise `false` with no change unless the directory is writeable and the name is unused, and then the lookup of the new file |
| Backends.Backend.Open | cmsh/classes/fileSystems/TmpFileSystem.js:17-26 | a new handle on the live file, which is created when missing; when that fails, a born-closed error handle saying `permission denied: <last segment>`; the web-storage file system wraps the handle |
| Backends.Backend.Sync | cmsh/classes/fileSystems/WebStorageFileSystem.js:64-66 | `_sync()` saves the whole tree under `'files'` in the storage all web-storage file systems share, replacing whatever any of them saved, and counts one save |
| Backends.WebStorageFileHandle.constructor | cmsh/classes/fileSystems/WebStorageFileSystem.js:5-8 | the wrapper holds its file system and its handle |
| Backends.WebStorageFileHandle.Read | cmsh/classes/fileSystems/WebStorageFileSystem.js:14-16 | `read` is the inner handle's read |
| Backends.WebStorageFileHandle.Write | cmsh/classes/fileSystems/WebStorageFileSystem.js:18-22 | returns what the inner write returns, after exactly one sync of the tree as written |
| Backends.WebStorageFileHandle.Close | cmsh/classes/fileSystems/WebStorageFileSystem.js:24-28 | returns what the inner close returns, after exactly one sync of the tree as closed |
| Handle.OverwriteLeavesData | cmsh/classes/FileHandle.js:38-41 | an overwriting write leaves exactly the data in the file, whatever it held |
| Handle.AppendAddsData | cmsh/classes/FileHandle.js:41 | an appending write puts the data after the old text |
| Handle.WriteOnlyThere | cmsh/classes/FileHandle.js:41 | a write changes nothing outside the file: every location stays, and nodes off its path are the same |
| Handle.OverwriteTwice | cmsh/classes/FileHandle.js:34-43 | `written` is never set, so two overwriting writes leave only the second one's data |
| Handle.FileHandle.constructor | cmsh/classes/FileHandle.js:4-10 | a handle is born closed exactly when its mode is `'error'`, and `written` is false |
| Handle.FileHandle.Write | cmsh/classes/FileHandle.js:34-43 | returns 1 with no change when the handle is closed (or, in cmsh, in `'read'` mode); otherwise returns 0 after writing, truncating first in `'overwrite'` mode |
| Handle.FileHandle.Close | cmsh/classes/FileHandle.js:45-51 | returns 1 with no change when already closed; otherwise appends one newline and closes the handle |
| Handle.FileHandle.Read | cmsh/classes/FileHandle.js:16-32 | an error handle rejects with its error; any other handle resolves with the file's text |
| Redirect.WriteLine | cmsh/classes/Shell.js:232-243 | one line goes through every handle in turn: an error line `cmd: error` for each plain handle whose mode is `'error'`, and the data written through each of the others; a web-storage wrapper has no `mode`, so even around an error handle it is written to (the write is refused) and then saves; each storage the wrappers save into ends as SavedState gives: one save per wrapper saving into it, holding the tree behind the last such wrapper as that write left it, and unchanged when none does |
| Redirect.WriteNext | cmsh/classes/Shell.js:235-242 | one step of the `forEach`: a plain error handle gives its line; any other handle, every web-storage wrapper included, writes the data; a wrapper then saves once more and its storage holds its tree as written, and the storages advance one step of SavedState (a plain handle saves nothing) |
| Redirect.WriteLines | cmsh/classes/Shell.js:231-243 | every line a command writes, one after the other, gives the error lines of the plain error handles and the trees of `Delivered`, and leaves each storage the wrappers save into as LinesState gives (see Redirect.LinesSaves) |
| Redirect.CloseAll | cmsh/classes/Shell.js:260-265 | every handle ends closed, each tree holds what closing the handles in turn made of it, and each storage the wrappers save into saves once per wrapper and holds the tree behind the last one as closed |
| Redirect.CloseNext | cmsh/classes/Shell.js:261-264 | one step of the closing `forEach`: a wrapper saves once more after its close and its storage holds its tree; the storages advance one step of SavedState |
| Redirect.LastSync | cmsh/classes/fileSystems/WebStorageFileSystem.js:18-28 | the last handle saving into a storage is such a handle, and none after it is (-1 when there is none) |
| Redirect.NoSaves | cmsh/classes/fileSystems/WebStorageFileSystem.js:18-28 | no handle saves into a storage exactly when there is no last such handle; a storage no wrapper saves into gets no save |
| Redirect.LinesSaves | cmsh/classes/fileSystems/WebStorageFileSystem.js:18-22 | after the lines, a storage has one save per line and wrapper saving into it, and holds, as `JSON.stringify(this.files)` at the last save, the tree behind the last such wrapper after the last line went through the handles up to it; no lines or no wrapper: unchanged |
| Redirect.ReleasedSaves | cmsh/classes/fileSystems/WebStorageFileSystem.js:18-28 | after the lines and the closes, one save per line and wrapper plus one per wrapper's close; the storage holds the tree behind the last wrapper saving into it as its close left it; no such wrapper: unchanged |
| Redirect.ReleasedCell | cmsh/classes/Shell.js:260-265 | what WriteLines and CloseAll state about a storage composes to ReleasedState, and a storage no wrapper saves into keeps its state |
| Redirect.Untouched | cmsh/classes/Shell.js:235-242 | handles that do not write into a tree leave it alone, both while writing and while closing |
| Redirect.AppendedText | cmsh/classes/Shell.js:235-242 | one written line reaches a text file once per handle on that file |
| Redirect.ClosedText | cmsh/classes/Shell.js:261-264 | closing ends a text file with one newline per handle on it |
| Redirect.DeliveredText | cmsh/classes/Shell.js:231-243 | line after line, the file holds its old text and then every line, once per handle, with no separator |
| Redirect.SingleRedirection | cmsh/classes/Shell.js:231-265 | with one handle on a text file, after the command the file holds its old text, then all the lines run together, then one newline |
| Redirect.RedirectedFile | cmsh/classes/Shell.js:218-267 | the same for a file the opens only grew: its old text (none when new), the lines run together, then one newline |
| LegacyFs.LegacyWalkNone | app/classes/FileSystem.js:78-97 | once a segment is missing the walk stays failed |
| LegacyFs.LegacyWalkInTree | app/classes/FileSystem.js:78-97 | the position and the remembered parent are always nodes of the tree |
| LegacyFs.LegacyFullPath | app/classes/FileSystem.js:82-93 | the reported names are those `resolvePath` keeps: `..` pops a name but never past the root |
| LegacyFs.LegacyReportsResolved | app/classes/FileSystem.js:107-112 | a copy reports the resolved path and the last segment, wherever the walk ended |
| LegacyFs.LegacyAgrees | app/classes/FileSystem.js:78-97 | without `.` and `..` segments this walk and the cmsh walk succeed together and end on the same node |
| LegacyFs.LegacyGetAgrees | app/classes/FileSystem.js:73-113 | `get(path, true)` of a path without `.` and `..` answers as the cmsh `get` does |
| LegacyFs.ParentRemembered | app/classes/FileSystem.js:82-88 | `..` goes back to the one remembered parent: `/a/b/../..` ends on `a`, although the copy reports `/` |
| LegacyFs.LegacyParentWalk | app/classes/FileSystem.js:57-59 | the directory lookup of `create` walks the segments before the leaf |
| LegacyFs.LegacyWalkKeeps | app/classes/FileSystem.js:63-69 | a walk that succeeded still succeeds, and ends on the same node, after an insertion under a free name |
| LegacyFs.LegacyCreateThenGet | app/classes/FileSystem.js:63-69 | after a successful `create` the path finds the new, writeable, empty file |
| LegacyFs.LegacyCreateKeeps | app/classes/FileSystem.js:63-69 | `create` never overwrites, and it keeps every node off the path to the new file |
| LegacyFs.LegacyCreatedGrows | app/classes/FileSystem.js:63-69 | `create` keeps every file and adds exactly one node, the new empty file |
| LegacyFs.LegacyOpenKeeps | app/classes/FileSystem.js:45-54 | after `open` the tree has only grown, and a handle that is not an error handle appends to a node of the tree |
| LegacyFs.LegacyFileSystem.constructor | app/classes/FileSystem.js:4-39 | the tree is the `'/'` entry of the converted description |
| LegacyFs.LegacyFileSystem.Get | app/classes/FileSystem.js:73-113 | the loop computes `LegacyGetSpec`: `false`, the live node, or a copy with the reported `fullPath` and the last segment |
| LegacyFs.LegacyFileSystem.Has | app/classes/FileSystem.js:41-43 | `has` holds exactly when `get` finds a node |
| LegacyFs.LegacyFileSystem.Create | app/classes/FileSystem.js:56-71 | `false` with no change when the directory is missing or not writeable; `undefined` with no change when the name is taken; otherwise the lookup of the new file |
| LegacyFs.LegacyFileSystem.Open | app/classes/FileSystem.js:45-54 | a new handle in the mode, on the node that is there or on the file just created; when creation fails, an error handle saying `permission denied: <last segment>` |
| Mounts.MountedIff | cmsh/classes/FileSystem.js:12-36 | a point is in the mount table exactly when a mounted entry (not `automount: false`, with a known type) names it |
| Mounts.LastEntryWins | cmsh/classes/FileSystem.js:33-35 | a later entry for the same point replaces an earlier one |
| Mounts.FstabListsEvery | cmsh/classes/FileSystem.js:39-43 | `getFstab` lists every entry, mounted or not, in order, one formatted line each |
| Mounts.MountPoint | cmsh/classes/FileSystem.js:45-49 | the mount point is the last key in table order that is a character prefix of the path; none when no key is |
| Mounts.InnerPath | cmsh/classes/FileSystem.js:54-57 | the inner path is the rest after the mount point, with a leading `/` |
| Mounts.Prepare | cmsh/classes/FileSystem.js:51-59 | `_prepare` resolves the path, picks its mount point and strips it |
| Mounts.PrepareNormalises | cmsh/classes/FileSystem.js:51-53 | preparing an already resolved path routes it the same way |
| Mounts.RootMountOnly | cmsh/classes/FileSystem.js:51-59 | with only a root mount, the mounted file system sees the resolved path itself |
| Mounts.RootRoutes | cmsh/classes/FileSystem.js:45-49 | a table with a `/` mount routes every path |
| Mounts.LastMatchNotLongest | cmsh/classes/FileSystem.js:45-49 | the last matching point wins, not the longest: `/mnt` listed after `/mnt/data` takes `/mnt/data/x` |
| Mounts.CharacterPrefix | cmsh/classes/FileSystem.js:47 | points match as character prefixes: `/mnt` also routes `/mntx`, as `/x` |
| Mounts.FileSystem.constructor | cmsh/classes/FileSystem.js:8-37 | every mounted entry gets a new file system of its type at its point, a later entry replacing an earlier one; all share the page's storage, every web-storage file system starts from the one saved tree and every tmp file system from an empty writeable root |
| Mounts.FileSystem.Mounted | cmsh/classes/FileSystem.js:61-79 | the file system a path is routed to is one of the mounted ones |
| Mounts.FileSystem.Get | cmsh/classes/FileSystem.js:61-69 | the mounted file system's answer for the inner path; a copy's `fullPath` becomes the resolved path, while a live node and `false` pass through |
| Mounts.FileSystem.Open | cmsh/classes/FileSystem.js:71-74 | `open` by the mounted file system on the inner path; only that file system's tree changes, and the handle is wrapped exactly when that file system is a web-storage one |
| Mounts.FileSystem.Create | cmsh/classes/FileSystem.js:76-79 | `create` by the mounted file system on the inner path; only that file system's tree changes |
| Line.NonEmpty | cmsh/classes/Line.js:63 | `filter(v => v.value !== '')` keeps exactly the non-empty segments, in order |
| Line.TokenizeWellFormed | cmsh/classes/Line.js:58-70 | every token is a non-empty list of non-empty segments |
| Line.ClassifyModes | cmsh/classes/Line.js:141-158 | while classifying, a pending mode and every recorded mode is the text of an operator token |
| Line.RedirectionModes | cmsh/classes/Line.js:143-164 | every redirection of a built line has a mode that starts with `>` or `<`, and never `'read'` |
| Line.Build | cmsh/classes/Line.js:10-184 | `Line.build` equals `BuildSpec`: tokenize the padded line, then classify the tokens |
| Line.RunTokenizer | cmsh/classes/Line.js:116-120 | the state machine fed the padded line and one flushing space gives `Tokenize` |
| Line.ClassifyTokens | cmsh/classes/Line.js:138-171 | the `forEach` over the tokens gives the variables, arguments and redirections of `ClassifyAll` |
| Line.PadStart | cmsh/classes/Line.js:116 | the padded line never starts with an operator |
| Line.PadSeparated | cmsh/classes/Line.js:116 | padding puts a space on each side of every maximal run of `>` or of `<` |
| Line.PadPlain | cmsh/classes/Line.js:116 | without operators, padding changes nothing |
| Line.PadChars | cmsh/classes/Line.js:116 | padding only adds spaces |
| Line.PadOperatorRun | cmsh/classes/Line.js:116 | an operator run is padded the same way whatever follows it, when the next character does not continue the run |
| Line.PadAppend | cmsh/classes/Line.js:116 | padding a concatenation pads each part, when no operator run straddles the seam |
| Line.OnlyArgumentEmits | cmsh/classes/Line.js:58-70 | only an unescaped space in the `argument` state pushes a token, and it pushes at most one |
| Line.FeedWord | cmsh/classes/Line.js:72-78 | ordinary characters in the `argument` state gather in `chars` |
| Line.FeedToken | cmsh/classes/Line.js:58-78 | a word of ordinary characters followed by a space becomes one unquoted token |
| Line.FeedInQuote | cmsh/classes/Line.js:80-111 | inside quotes nothing is emitted, and short of the closing quote the state is never left |
| Line.FeedQuotedText | cmsh/classes/Line.js:92-93 | text that is plain inside quotes is collected as it is |
| Line.EscapeInArgument | cmsh/classes/Line.js:20-75 | unquoted, a backslash stays in front of the character it escapes, even a space or a quote |
| Line.EscapeInQuotes | cmsh/classes/Line.js:81-93 | quoted, the backslash is dropped and the next character is taken literally, even the closing quote |
| Line.FeedSpaces | cmsh/classes/Line.js:58-69 | a space in the `argument` state with nothing collected emits nothing |
| Line.UnterminatedQuote | cmsh/classes/Line.js:116-120 | text after an unterminated quote is never emitted |
| Line.PadQuote | cmsh/classes/Line.js:116 | padding leaves a quote, and the text after it, alone when that text has no operator |
| Line.BlankLineTokens | cmsh/classes/Line.js:58-70 | an empty or all-space line has no token |
| Line.ClassifyGrows | cmsh/classes/Line.js:138-171 | assignments, arguments and redirections only grow, and once the command is seen the assignments are final |
| Line.AssignmentSplit | cmsh/classes/Line.js:151-155 | an assignment stores the text before the first `=` as the name and the rest, `=` signs included, as the value |
| Line.SingleQuotedVerbatim | cmsh/classes/Line.js:145-150 | single-quoted segments are never substituted |
| Line.WordsTokenize | cmsh/classes/Line.js:58-78 | space-separated words without quotes, backslashes or operators give one token each |
| Line.PlainWord | cmsh/classes/Line.js:149 | a word without `$` is left alone by the substitution |
| Line.BlankLine | cmsh/classes/Line.js:10-184 | an empty or all-space line builds no assignment, argument or redirection |
| Line.AssignWord | cmsh/classes/Line.js:141-155 | a word `NAME=VALUE` before the command is stored, split at its first `=` |
| Line.ArgumentWord | cmsh/classes/Line.js:165-170 | a word that is no assignment and no operator becomes the next argument and ends the assignments |
| Line.AssignmentsBeforeCommand | cmsh/classes/Line.js:133-170 | in `NAME=VALUE cmd NAME=VALUE` the first word is an assignment; after the command the same word is an ordinary argument |
| Line.PadOperator | cmsh/classes/Line.js:116 | an operator followed by a word is padded on both sides |
| Line.PadRedirection | cmsh/classes/Line.js:116 | `cmd>target`, `cmd>>target`, `cmd<target` and `cmd<<target` are padded into three words |
| Line.OperatorWord | cmsh/classes/Line.js:156-158 | an operator word becomes the pending mode |
| Line.TargetWord | cmsh/classes/Line.js:159-164 | the word after an operator is its target |
| Line.CommandWithRedirection | cmsh/classes/Line.js:116-164 | `cmd>target` and its variants give the command as the only argument, and one redirection with the operator as its mode |
| Line.FeedSingleQuoted | cmsh/classes/Line.js:41-91 | `'text'` after an emptied argument state ends as one single-quoted segment |
| Line.OpenSingleQuote | cmsh/classes/Line.js:41-53 | a `'` opens a single quote after pushing an empty unquoted segment |
| Line.CloseSingleQuote | cmsh/classes/Line.js:85-91 | the closing `'` and the space after it complete a token holding the one quoted segment |
| Line.QuotedBetweenEmpty | cmsh/classes/Line.js:63 | the empty unquoted segments around a quoted one are dropped |
| Line.SingleQuotedArgument | cmsh/classes/Line.js:145-150 | in `cmd 'text'` the quoted text is an argument exactly as written, `$` and spaces included |
| Line.ReferenceWord | cmsh/classes/Line.js:149 | a reference to an assignment made earlier on the line is replaced by its value |
| Line.EarlierAssignmentSubstituted | cmsh/classes/Line.js:149-155 | in `NAME=VALUE cmd $NAME` the argument is the value assigned earlier on the line |
| BuildCmdLine.ScanChars | app/functions/buildCmdLine.js:18-108 | the character loop computes `ScanFrom`: arguments, assignments and redirections in the order it pushes them |
| BuildCmdLine.ResolveStep | app/functions/buildCmdLine.js:110-121 | one more key of the `reduce`: its value is substituted using the assignments resolved before it |
| BuildCmdLine.ResolveGet | app/functions/buildCmdLine.js:110-121 | with distinct names, each assignment resolves to its raw value substituted with exactly the assignments before it in key order |
| BuildCmdLine.ResolveAbsent | app/functions/buildCmdLine.js:110-121 | a name that was not assigned on the line has no resolved value |
| BuildCmdLine.ResolveVariables | app/functions/buildCmdLine.js:110-121 | the `reduce` resolves the assignments in key order, as `Resolve` states |
| BuildCmdLine.Build | app/functions/buildCmdLine.js:2-133 | `buildCmdLine` and `_buildCmdLine` equal `BuildSpec`: scan, resolve the assignments, substitute the unquoted arguments |
| BuildCmdLine.QuoteToggles | app/functions/buildCmdLine.js:22-30 | an unescaped quote toggles its own flag, even inside the other kind of quote, and is dropped |
| BuildCmdLine.QuotedLiteral | app/functions/buildCmdLine.js:32-35 | inside quotes every other character, spaces and operators included, is taken literally |
| BuildCmdLine.OperatorMode | app/functions/buildCmdLine.js:41-52 | the mode is `'read'` for `<`, `'append'` for a `>` right after `>`, and `'overwrite'` for any other `>` |
| BuildCmdLine.TargetEnds | app/functions/buildCmdLine.js:94-102 | the space that ends a target records the redirection and resets the mode to `'append'` |
| BuildCmdLine.EqualsOnlyInInput | app/functions/buildCmdLine.js:56-93 | only the INPUT state makes `=` start an assignment; in ARGS it is ordinary text |
| BuildCmdLine.ScanText | app/functions/buildCmdLine.js:68-104 | outside quotes, text is appended to the current word |
| BuildCmdLine.ReadOff | app/functions/buildCmdLine.js:123-131 | the line is read off the final loop variables when nothing needs substituting |
| BuildCmdLine.EmptyLine | app/functions/buildCmdLine.js:5 | an empty line still yields one empty argument, because of the terminating space |
| BuildCmdLine.ScanName | app/functions/buildCmdLine.js:57-60 | `NAME=` in the INPUT state starts an assignment to NAME |
| BuildCmdLine.ScanValue | app/functions/buildCmdLine.js:72-78 | `VALUE ` in the VARIABLE state stores the assignment and returns to INPUT |
| BuildCmdLine.ScanAssignment | app/functions/buildCmdLine.js:56-82 | `NAME=VALUE ` in the INPUT state stores the assignment and returns to INPUT |
| BuildCmdLine.ScanArgument | app/functions/buildCmdLine.js:61-67 | a plain word followed by a space is the next argument |
| BuildCmdLine.WordEnds | app/functions/buildCmdLine.js:84-89 | a space after a word that ends in ordinary text pushes the word as an argument |
| BuildCmdLine.AssignmentThenCommand | app/functions/buildCmdLine.js:56-93 | `NAME=VALUE cmd` stores the assignment, and the command is the only argument |
| BuildCmdLine.EqualsInArgument | app/functions/buildCmdLine.js:83-93 | in `cmd a=b`, after the command `=` is ordinary text of an argument |
| BuildCmdLine.ScanQuoted | app/functions/buildCmdLine.js:27-35 | inside single quotes everything but a quote is collected as it is |
| BuildCmdLine.ScanQuotedArgument | app/functions/buildCmdLine.js:27-89 | `'text' ` after an argument pushes the text as a single-quoted argument |
| BuildCmdLine.ScanOpenQuote | app/functions/buildCmdLine.js:27-35 | an opening quote and the text after it: the text is collected as it is |
| BuildCmdLine.ScanCloseQuote | app/functions/buildCmdLine.js:27-89 | the closing quote and a space push the collected text as a single-quoted argument |
| BuildCmdLine.SingleQuotedArgument | app/functions/buildCmdLine.js:125-128 | in `cmd 'text'` the quoted argument is taken verbatim, without substitution |
| BuildCmdLine.ScanOperator | app/functions/buildCmdLine.js:37-52 | an operator and the space after it switch to REDIRECTION with the operator's mode |
| BuildCmdLine.ScanRedirection | app/functions/buildCmdLine.js:94-102 | `op target ` after a space records the redirection and returns to INPUT |
| BuildCmdLine.SpacedRedirection | app/functions/buildCmdLine.js:37-102 | `cmd op target` with spaces gives one argument and one redirection with the operator's mode |
| BuildCmdLine.PadOperator | app/functions/buildCmdLine.js:5 | the app version pads `cmd`, an operator and `target` into three words |
| BuildCmdLine.PadOperatorTail | app/functions/buildCmdLine.js:5 | an operator run followed by plain text is padded on both sides, and the text is kept |
| BuildCmdLine.AppRedirection | app/functions/buildCmdLine.js:5-102 | `cmd>target`, `cmd>>target` and `cmd<target` give the command as the only argument and one redirection; the target is not substituted |
| BuildCmdLine.LegacyRedirection | shell.js:402-517 | the `shell.js` version reads `cmd > target` and `cmd >> target` the same way |
| BuildCmdLine.LegacyGluedRedirection | shell.js:405 | without padding, `cmd>target` in `shell.js` has no argument, and its target is the command and the target run together |
| BuildCmdLine.ScanCommand | app/functions/buildCmdLine.js:68-70 | a plain word at the start of a line is collected as the current input |
| BuildCmdLine.ResolveChained | app/functions/buildCmdLine.js:110-121 | resolving `{a: x, b: $a}` lets b see the value of a |
| BuildCmdLine.ChainedAssignment | app/functions/buildCmdLine.js:110-121 | in `A=x B=$A cmd` the assignments are resolved in order, each seeing the ones before it, so B is x as well |
| Cmsh.StartHas | cmsh/classes/Shell.js:17-21 | the start variables always hold PWD and PATH |
| Cmsh.StartVariables | cmsh/classes/Shell.js:17-21 | a variable of `env` keeps its value; otherwise `?` is 0, PWD is HOME (`/` when HOME is unset or empty), and PATH is `/bin/:/usr/bin/` |
| Cmsh.Shell.constructor | cmsh/classes/Shell.js:7-25 | the variables are `StartValues(env)`, the file systems are mounted from the fstab, and no command runs |
| Cmsh.Shell.GetPath | cmsh/classes/Shell.js:110-115 | the lookup of the path taken from PWD; it throws when no mount point is a prefix |
| Cmsh.Shell.CreateFile | cmsh/classes/Shell.js:117-122 | `create` on the routed file system; it throws when nothing routes the path or a writeable file stands where the directory should be; only the routed tree changes |
| Cmsh.Shell.OpenFile | cmsh/classes/Shell.js:124-129 | `open` in mode `'append'`; it throws exactly when the path does not open; a new handle on success; only the routed tree changes, and every tree only grows |
| Cmsh.Shell.OpenAt | cmsh/classes/FileSystem.js:71-74 | `open` of a full path that opens: a new handle, and only the routed tree grows |
| Cmsh.Shell.ExecutablesInPath | cmsh/classes/Shell.js:147-178 | the table exists exactly when every PATH entry has a mount point, and then `exit` and `clear` are the built-ins |
| Cmsh.Shell.BuiltinsResolve | cmsh/classes/Shell.js:269-273 | `exit` and `clear` are always found as the built-ins, whatever PATH holds |
| Cmsh.Shell.PathLookup | cmsh/classes/Shell.js:269-282 | any other name resolves to the child of the last PATH directory offering it; otherwise to the file the name names, when that is executable |
| Cmsh.Shell.TableLookup | cmsh/classes/Shell.js:147-163 | outside the built-ins, the table has exactly what the PATH directories offer |
| Cmsh.Shell.ResolvedIsExecutable | cmsh/classes/Shell.js:269-282 | whatever `getExecutable` finds is executable |
| Cmsh.Shell.BuildIo | cmsh/classes/Shell.js:218-227 | every redirection target is opened in order; it throws when one of them does not open; the handles are new and distinct, describe the current trees and write into mounted trees |
| Cmsh.Shell.SetVariables | cmsh/classes/Shell.js:292 | the line's assignments are stored in key order, and every other variable is kept |
| Cmsh.Shell.Execute | cmsh/classes/Shell.js:284-319 | a line without arguments stores its assignments, settles with `undefined` and leaves the trees and the page's storage unchanged; otherwise the variables are unchanged and the command runs as `Ran` states |
| Cmsh.Shell.Dispatch | cmsh/classes/Shell.js:291-318 | `execute` after the line is built, with the same outcomes, the page's storage included |
| Cmsh.Shell.Run | cmsh/classes/Shell.js:297-318 | the lookup throws: aborted; nothing found: `Command not found` and 127; a command found without redirections: its output; in these three cases the trees and the page's storage are unchanged; with redirections: as `RanRedirected` states |
| Cmsh.Shell.Redirected | cmsh/classes/Shell.js:310-315 | the io is built, the command's lines go through every handle (an error line only for each plain error handle, see Cmsh.Shell.ErrorLineFor), and every handle is closed, as `RanRedirected` states; the page's storage ends as ReleasedState gives, and is unchanged when the run aborts |
| Cmsh.Shell.Release | cmsh/classes/Shell.js:231-265 | the command's lines through the writer, then `io.release()`: the error lines, the trees as `Released` states, and the page's storage as ReleasedState gives for what it held before |
| Cmsh.Shell.WriteOutput | cmsh/classes/Shell.js:231-243 | the command's lines through the writer: the error lines, the trees of `Delivered`, and the page's storage as LinesState gives, unchanged when no wrapper saves into it |
| Cmsh.Shell.RootsBuilt | cmsh/classes/Shell.js:218-227 | the trees behind handles opened on mounted file systems are the mounted trees as they are now |
| Cmsh.Shell.Inside | cmsh/classes/Shell.js:218-227 | handles opened for redirections write only into mounted trees and save only into the page's storage |
| Cmsh.Shell.ErrorLineFor | cmsh/classes/Shell.js:235-239 | a redirection handle gives the line `cmd: permission denied: <last segment>` exactly when `open` gave a plain error handle; a web-storage mount's handle, error or not, gives none |
| LegacyShell.FullPath | shell.js:225-230 | an absolute path is kept, a relative one is put after PWD; none when PWD is unset |
| LegacyShell.Shell.constructor | shell.js:195-205 | the variables of `env`, the tree of the description, and no command running |
| LegacyShell.Shell.GetPath | shell.js:211-216 | the lookup of the full path; it throws when PWD is read and unset |
| LegacyShell.Shell.CreateFile | shell.js:218-223 | `create` on the full path; it throws when PWD is unset or `create` throws |
| LegacyShell.Shell.OpenFile | shell.js:225-230 | `open` in mode `'append'` whatever the redirection asked for; it throws when that throws; the tree only grows |
| LegacyShell.Shell.Lookups | shell.js:375-376 | each PATH entry looked up with `get` |
| LegacyShell.Shell.ExecutablesInPath | shell.js:374-399 | the executable children of the PATH directories merged, a later entry winning, then `exit` and `clear`; it throws when PATH is unset |
| LegacyShell.Shell.PathLookup | shell.js:570-576 | a name other than the built-ins is found exactly when a PATH directory has it as an executable child, and then it is the last such child; the name itself is never looked up |
| LegacyShell.Shell.SetVariables | shell.js:563 | the line's assignments are stored in key order, and every other variable is kept |
| LegacyShell.Shell.OpenAll | shell.js:580-583 | every target is opened in turn; it throws when an open throws; the tree only grows |
| LegacyShell.Shell.Execute | shell.js:555-606 | a line without arguments stores its assignments and settles with `undefined`; otherwise the command is looked up in the table and run as `Ran` states |
| LegacyShell.Shell.Dispatch | shell.js:562-606 | `execute` after the line is built, with the same outcomes |
| LegacyShell.Shell.Run | shell.js:568-605 | the table throws: aborted; the name is not in it: `Command not found` and 127; otherwise the command is run with its redirections |
| LegacyShell.Shell.Redirected | shell.js:578-605 | the targets are opened, the command's `out` writes each line to every handle, and then every handle is closed |
| LegacyShell.Shell.Deliver | shell.js:584-604 | each line goes to every handle (an error handle adds an error line instead), and then every handle is closed |
| LegacyShell.Shell.Inside | shell.js:580-583 | handles opened for redirections write only into this file system's tree |

## Left out

- Process, console and page I/O (`process.hold`/`release`, `console.log`, the readline loop of `start`, `process.exit`, the browser front ends, completion) are not modelled. The output a command writes, and its return value, are parameters.
- The command bodies (`cat`, `echo`, `ls` and the rest) are not modelled. A command is a node whose content is `Program(name)`, and running one writes the given lines and returns the given code. Any other effect it has is not modelled.
- The asynchronous `get`, `open` and `create`, and `interruptible`'s timer, are modelled as synchronous steps taken in program order.
- The content of remote files, and `RemoteFile.fetch`, are modelled as an opaque `Remote(url)` value.
- Cmsh.StartVariables: `?` starts as the number 0 in the source; the model stores the string "0".
- Mounts.MountPoint: the mount point is the LAST matching key, as the code does, not the longest, as the comment beside it intends (see Mounts.LastMatchNotLongest).
- Env.GreedyName: `$X-2` refers to a variable named `X-2`, because `\S*` is greedy. The model follows the code, not the intent of combining `$X` with `-2` (see Env.GreedyDash).
- Handle.WrittenNode: writing to a command file, a remote file or a directory leaves the node unchanged in the model. In the source `content += data` coerces the old content to a string: `echo x > /bin/echo` replaces the command with text, and writing to a directory gives it a `content` of `"undefined"` followed by the data.
- Env.Environment.ApplyOnString: every `$RANDOM` in one call yields the same drawn number. The source calls `get('RANDOM')` once per reference.
- Line.Build: one number is drawn per line, so two `$RANDOM` references on a line have the same value.
- Cmsh.Shell.Execute: takes one drawn number for the whole line (see Line.Build).
- Cmsh.Shell.BuildIo: the targets are opened one after the other. The source opens them concurrently through `Promise.all`, so the interleaving of two opens that create the same file is not captured.
- Dict.Put: names that JavaScript objects inherit (`constructor`, `__proto__`, `toString`, ...) are absent keys in the model. In the source they count as present: `touch /tmp/constructor` fails because `directory.children['constructor']` is truthy, `executables['constructor']` is found as a command, and `$__proto__` expands to `undefined`.
- Dict.Put: keys that look like array indices (`"1"`, `"42"`) are listed in insertion order; JavaScript lists them first, in numeric order.
- Prompt.Prompt: the replacement strings USER, HOSTNAME and PWD are inserted literally. `String.replace` would interpret `$&`, `$$`, `` $` `` and `$'` inside them.
- BuildCmdLine.Build: app/classes/Environment.js is not part of this model. The app version uses the `shell.js` variable store (no RANDOM).
- Backends.Opens: the HTTP file system's open is counted as throwing on every modelled tree. It calls the node it found, and only a callback node (the one `_createFileSystem` makes for an index entry that is neither a directory nor a string) could answer with an HTTP file handle. Callback nodes are dropped by BaseFs.Convert, so the HTTP file handle is not modelled.
- Backends.Opens: on the JavaScript file system, opening a missing path gives a handle on the un-awaited promise of `create`, whose writes go nowhere. The model counts that open as throwing.
- Backends.Backend.Create: requires `!Throws`. When the directory lookup finds a writeable FILE, `directory.children[file]` throws a TypeError, and that case is excluded rather than modelled as an error.
- Backends.Backend.Open: requires `Opens`, which excludes the throwing opens above.
- LegacyFs.LegacyFileSystem.Create: requires `!LegacyThrows`, the same TypeError case as Backends.Backend.Create.
- LegacyFs.LegacyFileSystem.Open: requires `!LegacyOpenThrows`, the same case reached through `open`. The shells handle both throwing cases as `Threw` (see Cmsh.Shell.OpenFile and LegacyShell.Shell.OpenFile).
- Mounts.FileSystem.Get: requires `Routable`. When no mount point is a prefix, `mountPoint.length` throws; the shells check that first and answer `Threw`.
- Mounts.FileSystem.Open: requires `Routable` (see Mounts.FileSystem.Get).
- Mounts.FileSystem.Create: requires `Routable` (see Mounts.FileSystem.Get).
- Env.Environment.Get: requires `Has(key)`. Reading an unset key dereferences `undefined` and throws. Its callers model that throw (Prompt.Prompt, LegacyShell.FullPath).
- Redirect.CloseAll: handles are closed only when the command finishes. When a step throws, the handles opened so far stay open, as in the source.
- LegacyShell.Shell.OpenFile: the mode the redirection asks for is passed to `openFile`, which ignores it, so every handle appends.
- BuildCmdLine.OperatorMode: a `<` redirection gets mode `'read'`, but the app and `shell.js` shells still open it for output (see LegacyShell.Shell.OpenFile).
- Mounts.FileSystem.constructor: does not state the starting tree of a JavaScript or HTTP file system; Backends.Backend.Loaded states it.
- Line.RedirectionModes: states only that the mode starts with `>` or `<`. It does not state that the mode is exactly one of `>`, `>>`, `<`, `<<`.
- The `mount`, `chmod`, `completer` and `getMounts` helpers, `Io`, `Process`, `BrowserProcess` and `NodeProcess` are outside the modelled core.
