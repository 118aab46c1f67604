/** The skill lifecycle manager: `create_skill`, `edit_skill`, `delete_skill` and
    `list_skills` over an abstract file tree.

    A skill named `n` lives, for each agent `A`, in the directory
    `<base>/.A/skills/n/` with its definition in `SKILL.md` there. The base is the
    current directory at project level and, at global level, the agent's configured
    directory (for listing: the home directory).

    The collaborators the manager calls but does not define (the two validators, the
    template renderer, the two agent registries, the current and home directories) are
    the fields of `Env`, a value fixed when the store is made. */
module Management {
  import opened Paths
  import opened DescriptionLine

  /** An entry of the agent registry used by create, edit and delete (a dictionary
      keyed by agent name, so names are distinct). */
  datatype LocalAgent = LocalAgent(name: string, configDir: Path)

  /** An entry of the agent list used by `list_skills`: a name and the agent's skills
      directory relative to the base. */
  datatype SupportedAgent = SupportedAgent(name: string, skillsDir: Path)

  datatype Env = Env(
    validateName: string -> seq<string>,
    validateDescription: string -> seq<string>,
    template: (string, string) -> string,
    localAgents: seq<LocalAgent>,
    supportedAgents: seq<SupportedAgent>,
    cwd: Path,
    home: Path)

  predicate DistinctNames(agents: seq<LocalAgent>) {
    forall i, j :: 0 <= i < j < |agents| ==> agents[i].name != agents[j].name
  }

  datatype Error =
    | ValidationError(message: string, errors: seq<string>)
    | SkillError(message: string)
    | OsError(path: Path)  // what `iterdir` raises on a missing skills directory

  datatype Result<T> = Ok(value: T) | Err(error: Error)

  /** The `{'agent': ..., 'file': ...}` record create builds for each agent. */
  datatype SkillRecord = SkillRecord(agent: string, file: Path)

  /** What the existence check returns: agent name to `SKILL.md` path, in the order
      the agents were visited. */
  type Resolution = seq<(string, Path)>

  /** Create hands back the existence check's mapping when the skill already exists,
      and its own agent-to-record mapping when it wrote the files. */
  datatype Created =
    | AlreadyExists(found: Resolution)
    | Written(records: map<string, SkillRecord>)

  /** Both validation failures carry this message, the description one included. */
  const InvalidName := "Invalid skill name"

  function NotFound(name: string): string {
    "Skill " + name + ", not found."
  }

  /** How the f-string renders edit's optional description. */
  function Show(description: Option<string>): string {
    match description
    case None => "None"
    case Some(d) => d
  }

  function BaseRoot(env: Env, agent: LocalAgent, projectLevel: bool): Path {
    if projectLevel then env.cwd else agent.configDir
  }

  function SkillDir(env: Env, agent: LocalAgent, name: string, projectLevel: bool): Path {
    BaseRoot(env, agent, projectLevel) + ["." + agent.name, "skills", name]
  }

  function SkillFile(env: Env, agent: LocalAgent, name: string, projectLevel: bool): (p: Path)
    ensures |p| > 0 && Parent(p) == SkillDir(env, agent, name, projectLevel)
  {
    SkillDir(env, agent, name, projectLevel) + ["SKILL.md"]
  }

  function Entry(env: Env, agent: LocalAgent, name: string, projectLevel: bool): (string, Path) {
    (agent.name, SkillFile(env, agent, name, projectLevel))
  }

  /** Every agent's entry, in registry order. */
  function Entries(env: Env, agents: seq<LocalAgent>, name: string, projectLevel: bool): (r: Resolution)
    ensures |r| == |agents|
    ensures forall k :: 0 <= k < |agents| ==> r[k] == Entry(env, agents[k], name, projectLevel)
  {
    seq(|agents|, k requires 0 <= k < |agents| => Entry(env, agents[k], name, projectLevel))
  }

  /** The existence check: the agents, in registry order, whose `SKILL.md` exists. */
  function ResolveAmong(env: Env, agents: seq<LocalAgent>, files: map<Path, string>, name: string, projectLevel: bool)
    : (r: Resolution)
    ensures forall e :: e in r ==> e.1 in files && |e.1| > 0
    ensures NamesFiles(r)
    ensures forall e :: e in r ==> exists a :: a in agents && e == Entry(env, a, name, projectLevel)
    ensures forall a :: a in agents && SkillFile(env, a, name, projectLevel) in files ==>
      Entry(env, a, name, projectLevel) in r
    decreases |agents|
  {
    if agents == [] then []
    else
      var file := SkillFile(env, agents[0], name, projectLevel);
      var rest := ResolveAmong(env, agents[1..], files, name, projectLevel);
      assert forall a :: a in agents[1..] ==> a in agents;
      assert (agents[0].name, file) == Entry(env, agents[0], name, projectLevel);
      if file in files then [(agents[0].name, file)] + rest else rest
  }

  function Resolve(env: Env, files: map<Path, string>, name: string, projectLevel: bool): Resolution {
    ResolveAmong(env, env.localAgents, files, name, projectLevel)
  }

  predicate NamesFiles(found: Resolution) {
    forall k :: 0 <= k < |found| ==> |found[k].1| > 0
  }

  function FilesOf(found: Resolution): (r: seq<Path>)
    ensures |r| == |found| && forall k :: 0 <= k < |found| ==> r[k] == found[k].1
  {
    seq(|found|, k requires 0 <= k < |found| => found[k].1)
  }

  /** The skill directories `delete_skill` removes: each `SKILL.md`'s parent. */
  function DirsOf(found: Resolution): (r: seq<Path>)
    requires NamesFiles(found)
    ensures |r| == |found| && forall k :: 0 <= k < |found| ==> r[k] == Parent(found[k].1)
  {
    seq(|found|, k requires 0 <= k < |found| => Parent(found[k].1))
  }

  /** Create's fan-out over `agents`: make the skill directory, then write `SKILL.md`. */
  function Populate(env: Env, t: FileTree, agents: seq<LocalAgent>, name: string, content: string, projectLevel: bool)
    : FileTree
    decreases |agents|
  {
    if agents == [] then t
    else
      var agent := agents[|agents| - 1];
      var before := Populate(env, t, agents[..|agents| - 1], name, content, projectLevel);
      WriteFile(MakeDirs(before, SkillDir(env, agent, name, projectLevel)),
                SkillFile(env, agent, name, projectLevel), content)
  }

  /** The `created_files` dictionary built alongside the fan-out. */
  function Records(env: Env, agents: seq<LocalAgent>, name: string, projectLevel: bool): map<string, SkillRecord>
    decreases |agents|
  {
    if agents == [] then map[]
    else
      var agent := agents[|agents| - 1];
      Records(env, agents[..|agents| - 1], name, projectLevel)[
        agent.name := SkillRecord(agent.name, SkillFile(env, agent, name, projectLevel))]
  }

  ghost function WrittenBy(env: Env, agents: seq<LocalAgent>, name: string, projectLevel: bool): set<Path> {
    set a | a in agents :: SkillFile(env, a, name, projectLevel)
  }

  ghost function MadeBy(env: Env, agents: seq<LocalAgent>, name: string, projectLevel: bool): set<Path> {
    set a, q | a in agents && q in Ancestors(SkillDir(env, a, name, projectLevel)) :: q
  }

  lemma WrittenByStep(env: Env, agents: seq<LocalAgent>, name: string, projectLevel: bool)
    requires agents != []
    ensures WrittenBy(env, agents, name, projectLevel)
         == WrittenBy(env, agents[..|agents| - 1], name, projectLevel) + {SkillFile(env, agents[|agents| - 1], name, projectLevel)}
  {
    assert forall a :: a in agents <==> a in agents[..|agents| - 1] || a == agents[|agents| - 1];
  }

  lemma MadeByStep(env: Env, agents: seq<LocalAgent>, name: string, projectLevel: bool)
    requires agents != []
    ensures MadeBy(env, agents, name, projectLevel)
         == MadeBy(env, agents[..|agents| - 1], name, projectLevel) + Ancestors(SkillDir(env, agents[|agents| - 1], name, projectLevel))
  {
    assert forall a :: a in agents <==> a in agents[..|agents| - 1] || a == agents[|agents| - 1];
  }

  /** `create_skill`: the new tree and the outcome. Only the name reaches the
      validators, so the description is never checked; failures and an existing skill
      leave the tree as it was. */
  ghost function Create(env: Env, t: FileTree, name: string, description: string, projectLevel: bool)
    : (out: (FileTree, Result<Created>))
    ensures out.1.Err? <==> env.validateName(name) != [] || env.validateDescription(name) != []
    ensures out.1.Err? ==> out.1.error.ValidationError? && out.0 == t
    ensures env.validateName(name) != [] ==>
      out.1 == Err(ValidationError(InvalidName, env.validateName(name)))
    ensures env.validateName(name) == [] && env.validateDescription(name) != [] ==>
      out.1 == Err(ValidationError(InvalidName, env.validateDescription(name)))
    ensures out.1.Ok? && out.1.value.AlreadyExists? ==> out.0 == t && out.1.value.found != []
    ensures out.1.Ok? ==> (out.1.value.AlreadyExists? <==> Resolve(env, t.files, name, projectLevel) != [])
    ensures out.1.Ok? && out.1.value.AlreadyExists? ==> out.1.value.found == Resolve(env, t.files, name, projectLevel)
  {
    var nameErrors := env.validateName(name);
    if nameErrors != [] then (t, Err(ValidationError(InvalidName, nameErrors)))
    else
      var descriptionErrors := env.validateDescription(name);
      if descriptionErrors != [] then (t, Err(ValidationError(InvalidName, descriptionErrors)))
      else
        var found := Resolve(env, t.files, name, projectLevel);
        if found != [] then (t, Ok(AlreadyExists(found)))
        else
          var content := env.template(name, description);
          (Populate(env, t, env.localAgents, name, content, projectLevel),
           Ok(Written(Records(env, env.localAgents, name, projectLevel))))
  }

  /** `edit_skill`: read the first found file (newlines translated), rewrite its
      description line and write that one text to every found file. Edit touches no
      directory and creates no file. */
  ghost function Edit(env: Env, t: FileTree, name: string, description: Option<string>, projectLevel: bool)
    : (out: (FileTree, Result<bool>))
    ensures out.0.dirs == t.dirs && out.0.files.Keys == t.files.Keys
    ensures out.1.Err? ==> out.0 == t
    ensures out.1.Ok? ==> out.1.value
    ensures out.1.Ok? <==> env.validateDescription(name) == [] && Resolve(env, t.files, name, projectLevel) != []
    ensures env.validateDescription(name) != [] ==>
      out.1 == Err(ValidationError(InvalidName, env.validateDescription(name)))
  {
    var errors := env.validateDescription(name);
    if errors != [] then (t, Err(ValidationError(InvalidName, errors)))
    else
      var found := Resolve(env, t.files, name, projectLevel);
      if found == [] then (t, Err(SkillError(NotFound(name))))
      else
        var edited := Rewrite(ReadText(t.files[found[0].1]), Show(description));
        WriteAllContents(t, FilesOf(found), edited);
        (WriteAll(t, FilesOf(found), edited), Ok(true))
  }

  /** `delete_skill`: remove every found file's directory tree. Delete only removes. */
  ghost function Delete(env: Env, t: FileTree, name: string, projectLevel: bool)
    : (out: (FileTree, Result<bool>))
    ensures out.0.files.Keys <= t.files.Keys && out.0.dirs <= t.dirs
    ensures out.1.Err? ==> out.0 == t
    ensures out.1.Ok? ==> out.1.value
    ensures out.1.Ok? <==> Resolve(env, t.files, name, projectLevel) != []
  {
    var found := Resolve(env, t.files, name, projectLevel);
    if found == [] then (t, Err(SkillError(NotFound(name))))
    else
      RemoveTreesContents(t, DirsOf(found));
      (RemoveTrees(t, DirsOf(found)), Ok(true))
  }

  function SkillsPath(base: Path, agent: SupportedAgent): Path {
    base + agent.skillsDir
  }

  /** `list_skills` over `agents`: one single-key entry per agent, in order, or the
      error of the first agent whose skills directory is missing. */
  function ListAmong(base: Path, dirs: set<Path>, agents: seq<SupportedAgent>)
    : (r: Result<seq<map<string, set<Path>>>>)
    ensures r.Ok? <==> forall k :: 0 <= k < |agents| ==> SkillsPath(base, agents[k]) in dirs
    ensures r.Ok? ==> |r.value| == |agents|
    ensures r.Ok? ==> forall k :: 0 <= k < |agents| ==>
      r.value[k] == map[agents[k].name := Children(dirs, SkillsPath(base, agents[k]))]
    ensures r.Err? ==> exists k :: (0 <= k < |agents| && r.error == OsError(SkillsPath(base, agents[k]))
      && SkillsPath(base, agents[k]) !in dirs
      && forall j :: 0 <= j < k ==> SkillsPath(base, agents[j]) in dirs)
    decreases |agents|
  {
    if agents == [] then Ok([])
    else
      var path := SkillsPath(base, agents[0]);
      if path !in dirs then Err(OsError(path))
      else
        var rest := ListAmong(base, dirs, agents[1..]);
        assert forall k :: 0 < k < |agents| ==> agents[k] == agents[1..][k - 1];
        match rest
        case Err(e) =>
          ghost var k :| 0 <= k < |agents| - 1 && e == OsError(SkillsPath(base, agents[1..][k]))
            && SkillsPath(base, agents[1..][k]) !in dirs
            && forall j :: 0 <= j < k ==> SkillsPath(base, agents[1..][j]) in dirs;
          assert forall j :: 0 <= j < k + 1 ==> SkillsPath(base, agents[j]) in dirs by {
            forall j | 0 <= j < k + 1 ensures SkillsPath(base, agents[j]) in dirs {
              if j > 0 { assert agents[j] == agents[1..][j - 1]; }
            }
          }
          Err(e)
        case Ok(entries) => Ok([map[agents[0].name := Children(dirs, path)]] + entries)
  }

  function ListBase(env: Env, projectLevel: bool): Path {
    if projectLevel then env.cwd else env.home
  }

  function Listing(env: Env, dirs: set<Path>, projectLevel: bool): Result<seq<map<string, set<Path>>>> {
    ListAmong(ListBase(env, projectLevel), dirs, env.supportedAgents)
  }

  function Prepend(done: seq<map<string, set<Path>>>, r: Result<seq<map<string, set<Path>>>>)
    : Result<seq<map<string, set<Path>>>>
  {
    match r
    case Ok(rest) => Ok(done + rest)
    case Err(e) => Err(e)
  }

  lemma {:induction false} PopulateWellFormed(env: Env, t: FileTree, agents: seq<LocalAgent>, name: string,
                                             content: string, projectLevel: bool)
    requires WellFormed(t)
    ensures WellFormed(Populate(env, t, agents, name, content, projectLevel))
    decreases |agents|
  {
    if agents != [] {
      var agent := agents[|agents| - 1];
      var before := Populate(env, t, agents[..|agents| - 1], name, content, projectLevel);
      PopulateWellFormed(env, t, agents[..|agents| - 1], name, content, projectLevel);
      MakeDirsWellFormed(before, SkillDir(env, agent, name, projectLevel));
      WriteFileWellFormed(MakeDirs(before, SkillDir(env, agent, name, projectLevel)),
                          SkillFile(env, agent, name, projectLevel), content);
    }
  }

  /** One step of create's fan-out and of its record building, at agent `i`. */
  lemma PopulateStep(env: Env, t: FileTree, agents: seq<LocalAgent>, i: nat, name: string, content: string,
                     projectLevel: bool)
    requires i < |agents|
    ensures Populate(env, t, agents[..i + 1], name, content, projectLevel)
         == WriteFile(MakeDirs(Populate(env, t, agents[..i], name, content, projectLevel),
                               SkillDir(env, agents[i], name, projectLevel)),
                      SkillFile(env, agents[i], name, projectLevel), content)
    ensures Records(env, agents[..i + 1], name, projectLevel)
         == Records(env, agents[..i], name, projectLevel)[
              agents[i].name := SkillRecord(agents[i].name, SkillFile(env, agents[i], name, projectLevel))]
  {
    assert agents[..i + 1][..i] == agents[..i];
  }

  /** The entries of a non-empty registry: the first agent's, then the rest. */
  lemma EntriesStep(env: Env, agents: seq<LocalAgent>, name: string, projectLevel: bool)
    requires agents != []
    ensures Entries(env, agents, name, projectLevel)
         == [Entry(env, agents[0], name, projectLevel)] + Entries(env, agents[1..], name, projectLevel)
  {
    var r := [Entry(env, agents[0], name, projectLevel)] + Entries(env, agents[1..], name, projectLevel);
    forall k | 0 <= k < |agents| ensures Entries(env, agents, name, projectLevel)[k] == r[k] {
      if k > 0 { assert agents[1..][k - 1] == agents[k]; }
    }
  }

  /** One step of the existence check, at the first agent. */
  lemma ResolveStep(env: Env, agents: seq<LocalAgent>, files: map<Path, string>, name: string, projectLevel: bool)
    requires agents != []
    ensures ResolveAmong(env, agents, files, name, projectLevel)
         == if SkillFile(env, agents[0], name, projectLevel) in files
            then [Entry(env, agents[0], name, projectLevel)] + ResolveAmong(env, agents[1..], files, name, projectLevel)
            else ResolveAmong(env, agents[1..], files, name, projectLevel)
  {
  }

  /** One step of the listing from agent `i` on. */
  lemma ListAmongFrom(base: Path, dirs: set<Path>, agents: seq<SupportedAgent>, i: nat)
    requires i < |agents|
    ensures var path := SkillsPath(base, agents[i]);
      ListAmong(base, dirs, agents[i..]) ==
        if path !in dirs then Err(OsError(path))
        else Prepend([map[agents[i].name := Children(dirs, path)]], ListAmong(base, dirs, agents[i + 1..]))
  {
    assert agents[i..][1..] == agents[i + 1..];
  }

  lemma PrependTwice(done: seq<map<string, set<Path>>>, entry: map<string, set<Path>>,
                     r: Result<seq<map<string, set<Path>>>>)
    ensures Prepend(done, Prepend([entry], r)) == Prepend(done + [entry], r)
  {
    if r.Ok? {
      assert (done + [entry]) + r.value == done + ([entry] + r.value);
    }
  }

  /** The store: the file tree the manager changes, and its collaborators. */
  class SkillStore {
    const env: Env
    var files: map<Path, string>
    var dirs: set<Path>

    ghost predicate Valid()
      reads this
    {
      WellFormed(FileTree(files, dirs)) && DistinctNames(env.localAgents)
    }

    function State(): FileTree
      reads this
    {
      FileTree(files, dirs)
    }

    constructor (env: Env, t: FileTree)
      requires WellFormed(t) && DistinctNames(env.localAgents)
      ensures Valid() && State() == t && this.env == env
    {
      this.env := env;
      files := t.files;
      dirs := t.dirs;
    }

    method CreateSkill(name: string, description: string, projectLevel: bool) returns (r: Result<Created>)
      requires Valid()
      modifies this
      ensures Valid()
      ensures (State(), r) == Create(env, old(State()), name, description, projectLevel)
    {
      var nameErrors := env.validateName(name);
      if nameErrors != [] {
        return Err(ValidationError(InvalidName, nameErrors));
      }
      var descriptionErrors := env.validateDescription(name);
      if descriptionErrors != [] {
        return Err(ValidationError(InvalidName, descriptionErrors));
      }
      var found := Resolve(env, files, name, projectLevel);
      if found != [] {
        return Ok(AlreadyExists(found));
      }
      var created := WriteEveryAgent(name, description, projectLevel);
      return Ok(Written(created));
    }

    /** The fan-out of `create_skill`: for every agent, make the skill directory and
        write the rendered template to its `SKILL.md`. */
    method WriteEveryAgent(name: string, description: string, projectLevel: bool)
      returns (created: map<string, SkillRecord>)
      requires Valid()
      modifies this
      ensures Valid()
      ensures State() == Populate(env, old(State()), env.localAgents, name, env.template(name, description), projectLevel)
      ensures created == Records(env, env.localAgents, name, projectLevel)
    {
      var agents := env.localAgents;
      created := map[];
      var i := 0;
      while i < |agents|
        invariant 0 <= i <= |agents|
        invariant State() == Populate(env, old(State()), agents[..i], name, env.template(name, description), projectLevel)
        invariant created == Records(env, agents[..i], name, projectLevel)
      {
        var agent := agents[i];
        var skillDir := SkillDir(env, agent, name, projectLevel);
        dirs := dirs + Ancestors(skillDir);
        var skillFile := skillDir + ["SKILL.md"];
        var content := env.template(name, description);
        files := files[skillFile := content];
        created := created[agent.name := SkillRecord(agent.name, skillFile)];
        PopulateStep(env, old(State()), agents, i, name, content, projectLevel);
        i := i + 1;
      }
      assert agents[..i] == agents;
      PopulateWellFormed(env, old(State()), agents, name, env.template(name, description), projectLevel);
    }

    /** The write-back loop of `edit_skill`: the same text to every found file. */
    method WriteToAll(found: Resolution, content: string)
      modifies this
      ensures State() == WriteAll(old(State()), FilesOf(found), content)
    {
      ghost var paths := FilesOf(found);
      var i := 0;
      while i < |found|
        invariant 0 <= i <= |found|
        invariant State() == WriteAll(old(State()), paths[..i], content)
      {
        files := files[found[i].1 := content];
        assert paths[..i + 1][..i] == paths[..i];
        i := i + 1;
      }
      assert paths[..i] == paths;
    }

    method EditSkill(name: string, description: Option<string>, projectLevel: bool) returns (r: Result<bool>)
      requires Valid()
      requires '\\' !in Show(description)
      modifies this
      ensures Valid()
      ensures (State(), r) == Edit(env, old(State()), name, description, projectLevel)
    {
      var errors := env.validateDescription(name);
      if errors != [] {
        return Err(ValidationError(InvalidName, errors));
      }
      var found := Resolve(env, files, name, projectLevel);
      if found == [] {
        return Err(SkillError(NotFound(name)));
      }
      // every found path is non-empty, so the search loop of `edit_skill` stops on the first entry
      var skillFile := found[0].1;
      var initialContent := ReadText(files[skillFile]);
      var editedContent := Rewrite(initialContent, Show(description));
      ghost var before := State();
      WriteToAll(found, editedContent);
      WriteAllWellFormed(before, FilesOf(found), editedContent);
      return Ok(true);
    }

    /** The removal loop of `delete_skill`: `rmtree` on each found file's directory. */
    method RemoveAll(found: Resolution)
      requires NamesFiles(found)
      modifies this
      ensures State() == RemoveTrees(old(State()), DirsOf(found))
    {
      ghost var roots := DirsOf(found);
      var i := 0;
      while i < |found|
        invariant 0 <= i <= |found|
        invariant State() == RemoveTrees(old(State()), roots[..i])
      {
        var skillDir := Parent(found[i].1);
        files := map p | p in files && !(skillDir <= p) :: files[p];
        dirs := set d | d in dirs && !(skillDir <= d);
        assert roots[..i + 1][..i] == roots[..i];
        i := i + 1;
      }
      assert roots[..i] == roots;
    }

    method DeleteSkill(name: string, projectLevel: bool) returns (r: Result<bool>)
      requires Valid()
      modifies this
      ensures Valid()
      ensures (State(), r) == Delete(env, old(State()), name, projectLevel)
    {
      var found := Resolve(env, files, name, projectLevel);
      if found == [] {
        return Err(SkillError(NotFound(name)));
      }
      ghost var before := State();
      RemoveAll(found);
      RemoveTreesWellFormed(before, DirsOf(found));
      return Ok(true);
    }

    method ListSkills(projectLevel: bool) returns (r: Result<seq<map<string, set<Path>>>>)
      ensures r == Listing(env, dirs, projectLevel)
    {
      var basePath := ListBase(env, projectLevel);
      var agents := env.supportedAgents;
      var skills: seq<map<string, set<Path>>> := [];
      var i := 0;
      assert agents[i..] == agents;
      assert Prepend(skills, Listing(env, dirs, projectLevel)) == Listing(env, dirs, projectLevel) by {
        if Listing(env, dirs, projectLevel).Ok? { assert skills + Listing(env, dirs, projectLevel).value == Listing(env, dirs, projectLevel).value; }
      }
      while i < |agents|
        invariant 0 <= i <= |agents|
        invariant Listing(env, dirs, projectLevel) == Prepend(skills, ListAmong(basePath, dirs, agents[i..]))
      {
        var agentPath := SkillsPath(basePath, agents[i]);
        ListAmongFrom(basePath, dirs, agents, i);
        if agentPath !in dirs {
          return Err(OsError(agentPath));
        }
        var availableSkills := Children(dirs, agentPath);
        var entry := map[agents[i].name := availableSkills];
        PrependTwice(skills, entry, ListAmong(basePath, dirs, agents[i + 1..]));
        skills := skills + [entry];
        i := i + 1;
      }
      assert agents[i..] == [] && skills + [] == skills;
      return Ok(skills);
    }
  }
}
