# filename-manager, modelled in Dafny

This project models the rename engine of `filename_manager`
(`src/filename_manager/filename_manager.py`):

- `modify_filename` checks its six optional arguments and computes a new
  name for one file. The steps run in a fixed order: extension, regex,
  prefix, suffix. It then replaces the file onto the new name in the same
  directory.
- `modify_filenames` walks a directory tree depth-first, renaming every file
  it reaches. It raises when a directory yields neither a file nor a
  subdirectory.

The Dafny files, one module each:

| file | module | models |
|---|---|---|
| `failures.dfy` | `Failures` | `Option`, `Result`, paths, and the five Python exceptions the core raises |
| `path_names.dfy` | `PathNames` | pathlib's `stem` and `suffix` rule (last dot, not first, not last character) and `str.replace(".", "")` |
| `rename_rule.dfy` | `RenameRule` | `FORBIDDEN_CHARACTERS`, `ALL`, the argument checks and the four-step name pipeline of `modify_filename` |
| `file_tree.dfy` | `FileTree` | the file system as a tree value, lookup by name, and `Path.replace` with POSIX semantics |
| `walker.dfy` | `Walker` | `modify_filename` on one directory entry, and `modify_filenames` as a loop method |
| `walk_states.dfy` | `WalkStates` | the renamed tree, the clean-rename condition and the loop states the walk properties use |
| `walk_properties.dfy` | `WalkProperties` | what a whole walk does: when it raises, when it succeeds, what it leaves behind |
| `walk_examples.dfy` | `WalkExamples` | two small trees walked end to end |

How things are represented:

- **File system.** A node is a `File` (its contents abstracted to a number),
  a `Dir` with a sequence of named entries, or a `Special` entry that is
  neither.
- **Listing.** The order of a directory's entries is the order `iterdir`
  lists them in. The model takes no particular order.
- **Lookups.** Each listed name is looked up in the directory as it is at that
  moment, as `is_file()`/`is_dir()` do. A file renamed onto a name that is
  still to be listed is therefore found again under that name.
- **The walk.**
  - `Walker.ModifyDirectory` is the loop of `modify_filenames`, with the flag
    `no_files_found`. It is proved equal to the function `Walker.WalkDir`.
  - `Walker.ModifyFilenames` adds the root checks. It returns the whole file
    system afterwards and the returned value or raised exception.
  - On an exception, the tree keeps every rename already done.

## Model

| member | source | states |
|---|---|---|
| `PathNames.Suffix` | src/filename_manager/filename_manager.py:152 | the extension is empty or a dot followed by at least one dot-free character, and it ends the name without being all of it |
| `PathNames.Stem` | src/filename_manager/filename_manager.py:153 | the stem followed by the extension is the name, and a non-empty name has a non-empty stem |
| `PathNames.RemoveDots` | src/filename_manager/filename_manager.py:148-149 | the result holds no dot, and text without a dot comes back unchanged |
| `PathNames.RemoveDotsKeepsOthers` | src/filename_manager/filename_manager.py:148-149 | removing dots keeps every other character as many times as it occurred |
| `PathNames.RemoveDotsAppend` | src/filename_manager/filename_manager.py:148-149 | dots are removed piece by piece, so the characters that stay keep their order |
| `PathNames.SplitAtLastDot` | src/filename_manager/filename_manager.py:153 | `stem + "." + ext`, with a non-empty stem and a non-empty dot-free ext, has exactly that stem and extension `"." + ext` |
| `PathNames.DotlessHasNoSuffix` | src/filename_manager/filename_manager.py:152 | a name without a dot has no extension and is its own stem |
| `PathNames.InsertionKeepsSuffix` | src/filename_manager/filename_manager.py:166-169 | dot-free text put between stem and extension of a name not ending in a dot keeps the extension and lengthens the stem by that text |
| `PathNames.InsertionAfterTrailingDot` | src/filename_manager/filename_manager.py:166-169 | for `a.` (no extension, since the last dot ends the name) the suffix `_SUF` lands after the dot, making `._SUF` the new extension |
| `RenameRule.FirstForbidden` | src/filename_manager/filename_manager.py:116-123 | none is found exactly when every given argument is printable and free of forbidden characters; a found one is a given argument that fails, and every given argument before it passes |
| `RenameRule.Validate` | src/filename_manager/filename_manager.py:116-144 | no error exactly for a valid rule; ValueError exactly when a checked argument fails the character check, naming the first failing one in the order prefix, suffix, extold, extnew, sub; otherwise TypeError("extnew"/"extold") exactly for a lone extold/extnew, then TypeError("sub"/"regex") exactly for a lone regex/sub |
| `RenameRule.NewName` | src/filename_manager/filename_manager.py:115-169 | a name comes out exactly when the rule is valid, and it is the four-step pipeline's; otherwise the error is the one the checks raise first |
| `RenameRule.ExtensionStep` | src/filename_manager/filename_manager.py:147-153 | with both extensions non-empty: when the dot-free old one is `ALL` or matches the name's extension, the name becomes its stem, a dot and the dot-free new extension (the stem kept and that as the extension, or, for a new extension made only of dots, a name ending in a dot with no extension); otherwise the name is unchanged |
| `RenameRule.DottedAllMatchesEverything` | src/filename_manager/filename_manager.py:148-152 | because dots are removed before the comparison, `A.LL` and `.ALL` act as `ALL` and replace every extension |
| `RenameRule.ComposedRule` | src/filename_manager/filename_manager.py:146-169 | prefix, suffix and `ALL` -> extnew together give `prefix + stem + suffix + "." + extnew without dots` |
| `RenameRule.ComposedRuleExample` | tests/test_filename_manager.py:55-68 | `PREFIX`, `SUFFIX` and `ALL` -> `EXT` turn `a.txt` into `PREFIXaSUFFIX.EXT` |
| `RenameRule.PrefixOnly` | src/filename_manager/filename_manager.py:162-163 | a prefix alone gives `prefix + name` |
| `RenameRule.SuffixOnly` | src/filename_manager/filename_manager.py:166-169 | a suffix alone gives `stem + suffix + extension` for every name; when the suffix is dot-free and the name does not end in a dot, the extension is kept and the stem lengthened by the suffix |
| `RenameRule.NoOpRule` | src/filename_manager/filename_manager.py:125-169 | absent or empty prefix, suffix and extensions, with both extensions given or both left out and no regex pair, pass the checks and leave the name unchanged |
| `RenameRule.ForbiddenCharacterRaises` | src/filename_manager/filename_manager.py:116-123 | a forbidden or non-printable character in any of prefix, suffix, extold, extnew or sub makes the call raise ValueError, whatever else the rule holds |
| `RenameRule.RegexNotChecked` | src/filename_manager/filename_manager.py:116-123 | the regex is never character-checked: a regex pair is valid whatever the pattern holds, as long as the replacement passes the check |
| `FileTree.Rename` | src/filename_manager/filename_manager.py:172 | after a move onto a different name, names stay unique, the new name holds the moved node, the old name is gone, all other names are unchanged, and with no entry in the way the entry keeps its place |
| `FileTree.Replace` | src/filename_manager/filename_manager.py:172 | raises IsADirectoryError exactly when the target is another name holding a directory; otherwise the target holds the source's node, the source name is gone unless it is the target, and every other name is unchanged |
| `Walker.ModifyFilename` | src/filename_manager/filename_manager.py:104-172 | raises exactly when the rule is invalid (with the checks' error) or the new name is another name holding a directory (IsADirectoryError for that new path); otherwise the file moves to the pipeline's name, and no other name changes |
| `Walker.WalkDir` | src/filename_manager/filename_manager.py:86-101 | the walked directory keeps unique names, and a walk that does not raise returns False |
| `Walker.WalkFrom` | src/filename_manager/filename_manager.py:89-101 | the rest of the loop keeps names unique, and returns False when it does not raise |
| `Walker.VisitEntry` | src/filename_manager/filename_manager.py:89-96 | one turn of the loop: stopping gives the walk's final entries and exception; going on gives the state the remaining loop starts from |
| `Walker.ModifyDirectory` | src/filename_manager/filename_manager.py:86-101 | the loop with its flag leaves the entries and returns or raises exactly what `WalkDir` says |
| `Walker.ModifyFilenames` | src/filename_manager/filename_manager.py:67-101 | a root that is not a directory raises NotADirectoryError and leaves the tree as it was (a file root included); a directory root is walked, its new entries grafted at the root path, and the walk's result returned |
| `WalkProperties.EmptyDirectoryRaises` | src/filename_manager/filename_manager.py:86-99 | a directory with neither a file nor a subdirectory raises FileNotFoundError with its own path and is left as it was |
| `WalkProperties.InvalidRuleRenamesNothing` | src/filename_manager/filename_manager.py:89-92 | with an invalid rule no entry anywhere in the tree changes, and the walk raises the checks' error or FileNotFoundError |
| `WalkProperties.SuccessOnlyIf` | src/filename_manager/filename_manager.py:89-101 | a walk that returns has a valid rule, and no directory in the tree is without both files and subdirectories |
| `WalkProperties.DirectoriesKeepTheirNames` | src/filename_manager/filename_manager.py:89-96 | no walk renames or removes a subdirectory: every listed directory's name still holds a directory afterwards, whether the walk returned or raised and whatever new names collided |
| `WalkProperties.CleanWalkRenamesEveryFile` | src/filename_manager/filename_manager.py:89-101 | with a valid rule, no empty directory, and no new name meeting another entry's old or new name, the walk returns False and every file has its pipeline name, in place; directories keep their names |
| `WalkProperties.RenamedKeepsContents` | src/filename_manager/filename_manager.py:172 | renaming every file moves it without dropping or duplicating any file's contents |
| `WalkProperties.CleanWalkKeepsContents` | src/filename_manager/filename_manager.py:89-101 | a walk without collisions keeps every file's contents, each exactly once |
| `WalkProperties.NoRuleKeepsEveryName` | src/filename_manager/filename_manager.py:89-101 | with no rule arguments no entry anywhere changes; the walk returns or raises FileNotFoundError |
| `WalkProperties.NoRuleLeavesTreeUnchanged` | src/filename_manager/filename_manager.py:86-101 | with no rule arguments, a tree without empty directories is left as it is and the walk returns False |
| `WalkProperties.WalkChangesOnlyBelowPath` | src/filename_manager/filename_manager.py:86-101 | after the walk the root path names the walked directory, and every path that neither leads to it nor goes through it names what it named before |
| `WalkExamples.NestedEmptyDirectoryStopsWalk` | src/filename_manager/filename_manager.py:89-99 | in a directory holding `a.txt` then an empty directory `empty`, `--prefix pre_` renames `a.txt` to `pre_a.txt` and then raises FileNotFoundError for `empty`, keeping the rename |
| `WalkExamples.CollisionOverwritesAndRenamesTwice` | src/filename_manager/filename_manager.py:89-92 | with `--prefix pre_`, the files `a` (1) then `pre_a` (2) end as the single file `pre_pre_a` holding 1, and the walk returns False: file 2 is overwritten and file 1 renamed twice |

## Behaviour worth knowing

The model follows the code. Each point below is what the code does, where a
reader of the function names might expect something else.

- **A file as the root.** A file given as the root is not renamed. The code
  calls `modify_filename(path)` with no rule arguments, which leaves the name
  as it is (lines 79-80). It then goes on to `path.iterdir()` on that file
  (line 89), which raises NotADirectoryError. `Walker.ModifyFilenames` states
  this: for a file root the tree is unchanged and the result is
  NotADirectoryError.
- **Empty directories.** Not only a tree without any file raises. Every
  directory the walk enters raises FileNotFoundError if it lists neither a
  file nor a subdirectory. That holds for nested directories too, because the
  recursive call's own check raises first (lines 94-99).
  - `WalkProperties.EmptyDirectoryRaises` and `WalkProperties.SuccessOnlyIf`
    state this.
  - `WalkExamples.NestedEmptyDirectoryStopsWalk` shows an empty subdirectory
    ending a walk whose other file is already renamed.
- **The return value.** `modify_filenames` returns `no_files_found` (line
  101), which is False on every walk that does not raise (`Walker.WalkDir`).
- **File count.** The repository's test asserts that a walk keeps the number
  of files (tests/test_filename_manager.py:285). That holds for the trees the
  test builds, but not for every tree: `replace` overwrites, and the listing
  is read before the renames.
  - `WalkExamples.CollisionOverwritesAndRenamesTwice` succeeds with one file
    fewer, although every new name is different from the others.
  - The count and contents are kept when no new name meets another entry's
    old or new name (`WalkProperties.CleanWalkKeepsContents`).

## Left out

- `setup_logging` and `main` (lines 23-60 and 175-261): logging, argument
  parsing and the exit status. They do not change what the core computes.
- `re.sub` and `str.isprintable` belong to the Python runtime.
  - They are the two fields of `RenameRule.Env`.
  - `isprintable` of a string is taken as "every character is printable". This
    matches Python, including for the empty string.
  - The regex engine itself is not modelled.
  - `re.sub` raising `re.error` for a malformed pattern (line 157) is not
    modelled. The pattern is never checked, and `Env.reSub` always returns a
    name.
- Errors the operating system or pathlib raise besides the ones above are not
  modelled:
  - `with_name` rejecting an empty name, or one containing a separator, that
    `re.sub` produced;
  - `replace` failing for permissions or across devices;
  - symbolic links.
  - The new name is taken to be a single path component. pathlib's
    normalisation of the rebuilt path (`f"{path.parent}/..."`) is not
    modelled.
- `Path.replace` follows POSIX rename. A file onto a directory raises
  IsADirectoryError, and a file onto a file (or other non-directory)
  overwrites it. Windows semantics are not modelled.
- The recursive call's own root checks (lines 79-84) are not repeated for a
  subdirectory. The child has just passed `is_dir()`, so they cannot fire.
- Exception messages and absolute paths are not modelled. An exception carries
  the offending argument, the missing argument's name, or the path as a
  sequence of names from the root.
- The listing is a snapshot of the names, as `iterdir` produces over
  `os.listdir`. Changes to the tree by other processes during a walk are not
  modelled.
- File contents are reduced to a number, which is enough to track which file
  ended where.
- The rest of the repository: the interactive prototype `filename_manager.py`
  at the top level, `scripts/clean.py`, the test fixtures and
  `src/filename_manager/__init__.py`. None of them is part of the rename engine.
