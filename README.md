# Skill lifecycle manager of skills-ref, modelled in Dafny

`skills_ref/management.py` creates, edits, deletes and lists *skills*. A skill is a
directory `<base>/.<agent>/skills/<name>/` that holds a `SKILL.md`, kept once for each
AI agent the tool knows about. The base is the current directory for a project-level
skill. For a global skill it is the agent's configured directory (when listing: the
home directory).

The model has three layers:

- `Paths` (`paths.dfy`) is an abstract file tree. A path is a sequence of segments.
  The tree is a map from file paths to their text plus a set of directory paths. It
  provides the disk actions the manager uses: `mkdir(parents=True)`, `read_text`,
  `write_text`, `rmtree` and `iterdir` filtered to directories.
- `DescriptionLine` (`description.dfy`) is the one text rewrite the manager makes:
  `re.sub(r'^description:\s*.*$', 'description: ' + value, text, count=1, flags=re.MULTILINE)`.
  It follows Python's regex semantics. `\s` is the `str.isspace` set, so it includes
  the line break. `.` matches anything but `'\n'`. `^` holds at the start and after
  every `'\n'`.
- `Management` (`management.dfy`) holds the operations:
  - each operation as a specification function over the tree (`Create`, `Edit`,
    `Delete`, `Listing`);
  - the class `SkillStore`, whose fields are the tree and whose methods
    (`CreateSkill`, `EditSkill`, `DeleteSkill`, `ListSkills`) run the source's loops
    and are proved to produce exactly those functions' results;
  - the collaborators the manager calls but does not define, held as fields of `Env`:
    both validators, the template renderer, both agent registries, and the current
    and home directories.
- `SkillProperties` (`properties.dfy`) proves what the operations promise together:
  - the state each operation leaves behind;
  - a repeated create or edit changes nothing;
  - a delete makes the skill not found;
  - a listing after create shows the new skill, and after delete does not.

The existence check `check_if_skill_exist` comes from `validator.py`, which is not part of
this model. It is modelled as the agents of the local registry, in registry order, whose
`SKILL.md` exists, each paired with that path. It builds the path the same way create
does. The result is an ordered sequence, like a Python dict, so edit's "first found
file" is well defined.

Behaviour kept as the code has it:

- Create and edit pass the skill *name* to `_validate_description`, so the
  description is never validated. Both validation failures carry the message
  "Invalid skill name".
- When the skill already exists, create returns the existence check's agent-to-path
  mapping (`AlreadyExists`). Otherwise it returns its own agent-to-record mapping
  (`Written`).
- Edit rewrites the first found file only. It then writes that one text to *every*
  found file, overwriting whatever the other copies held.
- Edit's default description `None` is written out as the text `None`.
- Edit reads the first found file with `read_text`, which turns `"\r\n"` and a lone
  `'\r'` into `'\n'`. It writes the rewritten text as read, so every copy ends up with
  `'\n'` line ends. A `'\r'` in the description is written as is and read back as a
  line break, which is why a second edit with such a description is not a no-op.
- The pattern's `\s*` runs over line breaks. When a `description:` line has an empty
  value, the match takes the whole next line (`EmptyValueSwallowsNextLine`).
- `list_skills` tests the resolved path for truth, which a `Path` always passes. A
  missing skills directory therefore makes `iterdir` raise, and the model returns
  `Err(OsError(path))` rather than skipping that agent.
- `list_skills` takes its agents from a second registry, `load_supporting_agents`,
  where each agent names its own skills directory. At global level it lists under the
  home directory, while create writes under each agent's configured directory.

## Model

| member | source | states |
|---|---|---|
| Paths.MakeDirs | skills-ref/src/skills_ref/management.py:39 | `mkdir(parents=True, exist_ok=True)`: adds the path and its ancestors (`Ancestors`, `MakeDirsWellFormed`) |
| Paths.WriteFile | skills-ref/src/skills_ref/management.py:42 | `write_text`: creates or overwrites one file (`WriteFileWellFormed`) |
| Paths.ReadText | skills-ref/src/skills_ref/management.py:71 | `read_text` in universal-newline mode: the result holds no `'\r'`, and a text without one is read unchanged |
| Paths.ReadTextCrLf | skills-ref/src/skills_ref/management.py:71 | a `"\r\n"` line end is read as one `'\n'` |
| Paths.ReadTextLoneCr | skills-ref/src/skills_ref/management.py:71 | a lone `'\r'` is read as `'\n'` |
| Paths.RemoveTree | skills-ref/src/skills_ref/management.py:106 | `rmtree`: removes the directory and everything beneath it (`RemoveTreeWellFormed`) |
| Paths.WriteAll | skills-ref/src/skills_ref/management.py:80-84 | the write-back loop as a fold of `WriteFile` (`WriteAllContents`, `WriteAllUnchanged`) |
| Paths.RemoveTrees | skills-ref/src/skills_ref/management.py:103-106 | the removal loop as a fold of `RemoveTree` (`RemoveTreesContents`) |
| Paths.Ancestors | skills-ref/src/skills_ref/management.py:39 | `mkdir(parents=True)` creates exactly the path and every prefix of it |
| Paths.Children | skills-ref/src/skills_ref/management.py:126 | the listing of a directory is exactly the directories one segment beneath it |
| Paths.WriteAllContents | skills-ref/src/skills_ref/management.py:80-84 | writing one text to several files sets exactly those files to it, keeps every other file, creates no directory |
| Paths.WriteAllUnchanged | skills-ref/src/skills_ref/management.py:80-84 | writing files the text they already hold leaves the tree unchanged |
| Paths.RemoveTreesContents | skills-ref/src/skills_ref/management.py:103-106 | after the `rmtree` calls exactly the paths outside every removed tree remain, with their contents |
| Paths.MakeDirsWellFormed | skills-ref/src/skills_ref/management.py:39 | `mkdir(parents=True)` keeps every directory's parent present and makes the requested directory |
| Paths.WriteFileWellFormed | skills-ref/src/skills_ref/management.py:42 | writing a file whose directory exists keeps the tree well formed |
| Paths.RemoveTreeWellFormed | skills-ref/src/skills_ref/management.py:106 | `rmtree` leaves no directory or file without its parent |
| Paths.WriteAllWellFormed | skills-ref/src/skills_ref/management.py:80-84 | overwriting existing files keeps the tree well formed |
| Paths.RemoveTreesWellFormed | skills-ref/src/skills_ref/management.py:103-106 | removing several trees keeps the tree well formed |
| DescriptionLine.IsSpace | skills-ref/src/skills_ref/management.py:73 | the characters `\s` matches: those for which `str.isspace()` holds, `'\t'` to `'\r'` (line breaks included), `'\x1c'` to `'\x1f'`, space, `'\x85'`, `'\xa0'`, `'\u1680'`, `'\u2000'` to `'\u200a'`, `'\u2028'`, `'\u2029'`, `'\u202f'`, `'\u205f'` and `'\u3000'` |
| DescriptionLine.LineStart | skills-ref/src/skills_ref/management.py:73-77 | `^` under `re.MULTILINE` holds at the start of the text and right after every `'\n'` |
| DescriptionLine.KeyAt | skills-ref/src/skills_ref/management.py:73-77 | a match of `^description:` starts at a line start followed by the key |
| DescriptionLine.Rewrite | skills-ref/src/skills_ref/management.py:72-78 | the substitution with `count=1` (`RewriteReplacesFirstMatch`, `NoMatchUnchanged`, `RewriteIdempotent`) |
| DescriptionLine.SpaceEnd | skills-ref/src/skills_ref/management.py:73 | greedy `\s*`: every character it spans is whitespace and the next one is not |
| DescriptionLine.LineEnd | skills-ref/src/skills_ref/management.py:73 | greedy `.*$`: it spans no line break and stops at one or at the end |
| DescriptionLine.FindKey | skills-ref/src/skills_ref/management.py:73-77 | the search finds the leftmost line beginning with `description:`, or reports that none exists |
| DescriptionLine.MatchEnd | skills-ref/src/skills_ref/management.py:73 | the match ends after the key, at a line break or at the end of the text |
| DescriptionLine.LineEndIs | skills-ref/src/skills_ref/management.py:73 | the end of `.*$` is unique: any newline-free run stopping at a line end is the one found |
| DescriptionLine.NoMatchUnchanged | skills-ref/src/skills_ref/management.py:72-78 | with no `description:` line the text comes back unchanged; no line is added |
| DescriptionLine.FindKeyIs | skills-ref/src/skills_ref/management.py:76 | the first matching line is the one `count=1` rewrites |
| DescriptionLine.RewriteReplacesFirstMatch | skills-ref/src/skills_ref/management.py:72-78 | only the first match is replaced: text before it and after the matched line end are kept, and the match is key, longest whitespace run, rest of that line |
| DescriptionLine.KeyAtBefore | skills-ref/src/skills_ref/management.py:73 | a match before a line start depends only on the text before it |
| DescriptionLine.RewriteAt | skills-ref/src/skills_ref/management.py:72-78 | the result is the prefix, `description: <value>`, then the text after the match |
| DescriptionLine.RewriteSetsLine | skills-ref/src/skills_ref/management.py:72-78 | after the rewrite the first `description:` line is exactly `description: <value>` (value without line break) |
| DescriptionLine.RewriteShowsLine | skills-ref/src/skills_ref/management.py:72-78 | the rewritten text's first `description:` line is found where the original's was, and reads exactly `description: <value>` |
| DescriptionLine.MatchEndAtValue | skills-ref/src/skills_ref/management.py:73 | on a line that reads `description: <value>` with a non-blank, single-line value, the match covers exactly that line |
| DescriptionLine.MatchEndAfterRewrite | skills-ref/src/skills_ref/management.py:73 | in a rewritten text the match ends right after the value when the value has a non-space character |
| DescriptionLine.RewriteIdempotent | skills-ref/src/skills_ref/management.py:72-78 | rewriting again with the same single-line, non-blank value changes nothing |
| DescriptionLine.EmptyValueSwallowsLine | skills-ref/src/skills_ref/management.py:73 | when the rest of the key line is blank the match runs past its line break, and takes all of the next line when that line starts with a non-space |
| DescriptionLine.EmptyValueSwallowsNextLine | skills-ref/src/skills_ref/management.py:73 | an instance: `"description:\nname: x\n"` becomes `"description: d\n"` |
| DescriptionLine.RewriteAddsNothing | skills-ref/src/skills_ref/management.py:72-78 | the rewrite brings in no character that is in neither the text, the value nor `description: ` |
| Management.BaseRoot | skills-ref/src/skills_ref/management.py:37 | the base is the current directory at project level, else the agent's configured directory |
| Management.SkillDir | skills-ref/src/skills_ref/management.py:38 | `<base>/.<agent>/skills/<name>` (`SkillFile`) |
| Management.NotFound | skills-ref/src/skills_ref/management.py:64 | the `SkillError` message `Skill <name>, not found.` that edit raises, and delete the same at line 101 |
| Management.Show | skills-ref/src/skills_ref/management.py:74 | the f-string renders an absent description as `None` |
| Management.SkillFile | skills-ref/src/skills_ref/management.py:38-40 | `SKILL.md` sits directly in the skill directory `<base>/.<agent>/skills/<name>` |
| Management.ResolveAmong | skills-ref/src/skills_ref/management.py:30 | the existence check reports only existing `SKILL.md` files of registered agents, and every agent whose file exists |
| Management.Resolve | skills-ref/src/skills_ref/management.py:30 | the existence check over the local registry (`ResolveAll`, `ResolveNone`, `ResolveSameKeys`) |
| Management.ListAmong | skills-ref/src/skills_ref/management.py:123-128 | the listing succeeds iff every agent's skills directory exists; then one single-key entry per agent, in order, holding its subdirectories; otherwise the first missing directory's error |
| Management.ListBase | skills-ref/src/skills_ref/management.py:120 | the listing base is the current directory at project level, else the home directory |
| Management.SkillsPath | skills-ref/src/skills_ref/management.py:125 | an agent's skills directory is its configured `skills_dir` under the base |
| Management.Listing | skills-ref/src/skills_ref/management.py:120-130 | `list_skills` over the listing registry (`ListAmong`, `CreateThenList`, `DeleteThenList`) |
| Management.Create | skills-ref/src/skills_ref/management.py:24-45 | create fails iff a validator rejects the name, with `ValidationError("Invalid skill name")` carrying the first failing validator's errors and the tree unchanged; otherwise it returns `AlreadyExists` exactly when the existence check finds the skill, handing back that mapping unchanged with the tree untouched |
| Management.Edit | skills-ref/src/skills_ref/management.py:60-85 | edit raises the `ValidationError` when the validator rejects the name, succeeds (returning `True`) iff the name validates and the skill is found, changes nothing on failure, and never creates a file or directory |
| Management.Delete | skills-ref/src/skills_ref/management.py:100-107 | delete succeeds (returning `True`) iff the skill is found, changes nothing on failure, and only removes files and directories |
| Management.Populate | skills-ref/src/skills_ref/management.py:36-42 | create's fan-out as a fold (`PopulateContents`, `PopulateWellFormed`) |
| Management.Records | skills-ref/src/skills_ref/management.py:43 | the `created_files` dictionary as a fold (`RecordsShape`) |
| Management.PopulateWellFormed | skills-ref/src/skills_ref/management.py:36-42 | create's fan-out keeps the tree well formed |
| Management.ListAmongFrom | skills-ref/src/skills_ref/management.py:123-128 | one iteration of the listing loop: error on a missing directory, else the entry followed by the rest |
| Management.SkillStore.CreateSkill | skills-ref/src/skills_ref/management.py:24-45 | the method's new tree and result are exactly `Create`'s, and the tree stays well formed |
| Management.SkillStore.WriteEveryAgent | skills-ref/src/skills_ref/management.py:33-45 | the loop makes every agent's directory, writes the template and builds the records, exactly as `Populate`/`Records` say |
| Management.SkillStore.WriteToAll | skills-ref/src/skills_ref/management.py:80-84 | the write-back loop leaves the tree `WriteAll` describes |
| Management.SkillStore.EditSkill | skills-ref/src/skills_ref/management.py:60-85 | the method's new tree and result are exactly `Edit`'s, and the tree stays well formed |
| Management.SkillStore.RemoveAll | skills-ref/src/skills_ref/management.py:103-106 | the removal loop leaves the tree `RemoveTrees` describes |
| Management.SkillStore.DeleteSkill | skills-ref/src/skills_ref/management.py:100-107 | the method's new tree and result are exactly `Delete`'s, and the tree stays well formed |
| Management.SkillStore.ListSkills | skills-ref/src/skills_ref/management.py:120-130 | the loop returns exactly `Listing`: all entries, or the first missing directory's error |
| SkillProperties.PopulateContents | skills-ref/src/skills_ref/management.py:36-42 | the fan-out writes the template at every agent's `SKILL.md`, makes every skill directory and its ancestors, and changes no other file |
| SkillProperties.RecordsShape | skills-ref/src/skills_ref/management.py:43 | create's report maps exactly the agent names, each to its own name and `SKILL.md` path |
| SkillProperties.ResolveAll | skills-ref/src/skills_ref/management.py:30 | when every agent's `SKILL.md` exists, the existence check reports every agent in order |
| SkillProperties.ResolveSameKeys | skills-ref/src/skills_ref/management.py:63 | the existence check depends only on which files exist, not on their text |
| SkillProperties.ResolveNone | skills-ref/src/skills_ref/management.py:100-101 | when no agent's `SKILL.md` exists, the existence check finds nothing |
| SkillProperties.NotFoundWithoutFiles | skills-ref/src/skills_ref/management.py:100-101 | with no agent's `SKILL.md` present, delete (and edit, once the name validates) raises "Skill <name>, not found." and changes nothing |
| SkillProperties.CreateKeepsExisting | skills-ref/src/skills_ref/management.py:30-31 | when any agent already has the skill's `SKILL.md`, create leaves the tree as it was and, once the name validates, returns the existence check's mapping, which names that agent |
| SkillProperties.FoundSucceeds | skills-ref/src/skills_ref/management.py:100-107 | when any agent has the skill's `SKILL.md`, delete returns `True`, and so does edit once the name validates and the description holds no backslash |
| SkillProperties.CreateOutcome | skills-ref/src/skills_ref/management.py:33-45 | after a create that wrote: every agent's skill directory exists, its `SKILL.md` holds the template, the report has one record per agent, other files are untouched, new directories only lie on the skill paths |
| SkillProperties.CreateTwiceIsNoOp | skills-ref/src/skills_ref/management.py:30-31 | a second create with the same arguments changes nothing and returns the existence check's mapping of every agent |
| SkillProperties.ListShows | skills-ref/src/skills_ref/management.py:123-128 | when every agent's skills directory exists the listing succeeds, and a skill directory present under each shows up in each agent's entry |
| SkillProperties.CreateThenList | skills-ref/src/skills_ref/management.py:120-128 | after a project-level create, listing succeeds and shows the new skill directory under every agent that follows the `.<agent>/skills` layout |
| SkillProperties.DeleteOutcome | skills-ref/src/skills_ref/management.py:103-106 | after delete, each found agent's skill directory and everything beneath are gone, everything outside is as it was, and a second delete raises not found, as does an edit once the name validates (`NothingLeftToFind`) |
| SkillProperties.NothingLeftToFind | skills-ref/src/skills_ref/management.py:100-101 | with no agent's `SKILL.md` present, delete and every edit whose name validates raise "Skill <name>, not found." and change nothing |
| SkillProperties.DeleteThenList | skills-ref/src/skills_ref/management.py:126 | a listing after delete shows the removed skill directory under no agent |
| SkillProperties.EditOutcome | skills-ref/src/skills_ref/management.py:66-84 | after edit every found file holds the first found file's text, as `read_text` returns it, with its description line rewritten; every other file and every directory is as it was |
| SkillProperties.RewriteReread | skills-ref/src/skills_ref/management.py:71-78 | reading back a rewritten text and rewriting it with the same non-blank, single-line value without `'\r'` gives the same text |
| SkillProperties.EditTwiceIsNoOp | skills-ref/src/skills_ref/management.py:71-84 | editing again with the same non-blank description without `'\n'` or `'\r'` changes nothing |
| SkillProperties.EditShowsNewLine | skills-ref/src/skills_ref/management.py:71-84 | when the first found file, as read, has a `description:` line, after edit every found file's first such line is exactly `description: <value>` |

## Left out

- `validator.py`, `parser.py`, `utils.py` and `errors.py` are not part of this model. Their functions are fields of `Env` (validators, template, registries), and the existence check follows the rule above.
- Exceptions are results: `ValidationError` and `SkillError` become `Err` values. Errors raised by `mkdir`, `write_text`, `read_text` and `rmtree` are not modelled. These include a path that is both a file and a directory, a permission failure, and a directory that a second agent's `rmtree` already removed.
- `Path.cwd()`, `Path.home()` and `Path.resolve()` are parameters (`Env.cwd`, `Env.home`, the configured directory as given). Symbolic links and `..` normalisation are not modelled.
- A skill name is one path segment, whatever it holds. A name containing `/` is not split into several directories; `..` does not climb out of `skills`; an empty name or `.` is not dropped by `pathlib` (where it would make the skill directory `<base>/.<agent>/skills` itself, which delete, validating nothing, would then remove whole).
- Management.Records: a map, so the insertion order of create's `created_files` dictionary (registry order) is not kept; the keys and values are.
- `iterdir` order is not modelled: a listing entry is a set of directories, not a list.
- Concurrent access to the disk is not modelled.
- Management.Edit: the replacement text is taken literally. With a backslash in the description, `re.sub` processes escapes in it (`\t` becomes a tab) or raises on an unknown one (`\d`); the model does not capture this.
- Management.SkillStore.EditSkill: requires that the description holds no backslash, because the escape processing `re.sub` applies to its replacement text is not modelled.
- SkillProperties.EditOutcome: requires no backslash in the description, for the same reason.
- SkillProperties.EditTwiceIsNoOp: requires no backslash in the description, for the same reason.
- SkillProperties.EditShowsNewLine: requires no backslash in the description, for the same reason.
- SkillProperties.FoundSucceeds: its edit clause holds only for a description without a backslash, for the same reason; `re.sub` raises on an unknown escape such as `\d`, so edit then raises rather than returning `True`.
- `write_text` writes `'\n'` as is, as on POSIX systems; the translation to `"\r\n"` that Windows applies is not modelled.
- SkillProperties.CreateThenList: covers project level only, where every agent writes under the current directory; at global level create writes under each configured directory while listing reads under the home directory, so no common statement holds without assumptions about the registries.
