/** What the skill manager's operations promise together: the state each leaves
    behind, what a repeated call does, and what a later listing shows. */
module SkillProperties {
  import opened Paths
  import opened DescriptionLine
  import opened Management

  /** Create's fan-out writes the template at every agent's `SKILL.md`, makes every
      agent's skill directory with its ancestors, and touches nothing else. */
  lemma {:induction false} PopulateContents(env: Env, t: FileTree, agents: seq<LocalAgent>, name: string,
                                            content: string, projectLevel: bool)
    ensures var t1 := Populate(env, t, agents, name, content, projectLevel);
      && t1.files.Keys == t.files.Keys + WrittenBy(env, agents, name, projectLevel)
      && (forall p :: p in WrittenBy(env, agents, name, projectLevel) ==> t1.files[p] == content)
      && (forall p :: p in t.files && p !in WrittenBy(env, agents, name, projectLevel) ==> t1.files[p] == t.files[p])
      && t1.dirs == t.dirs + MadeBy(env, agents, name, projectLevel)
    decreases |agents|
  {
    if agents != [] {
      var init := agents[..|agents| - 1];
      var last := agents[|agents| - 1];
      PopulateContents(env, t, init, name, content, projectLevel);
      WrittenByStep(env, agents, name, projectLevel);
      MadeByStep(env, agents, name, projectLevel);
    }
  }

  /** With distinct agent names, create's report has one record per agent, naming
      that agent and its `SKILL.md`. */
  lemma {:induction false} RecordsShape(env: Env, agents: seq<LocalAgent>, name: string, projectLevel: bool)
    requires DistinctNames(agents)
    ensures var r := Records(env, agents, name, projectLevel);
      && r.Keys == (set a | a in agents :: a.name)
      && forall a :: a in agents ==> r[a.name] == SkillRecord(a.name, SkillFile(env, a, name, projectLevel))
    decreases |agents|
  {
    if agents != [] {
      var init := agents[..|agents| - 1];
      var last := agents[|agents| - 1];
      assert DistinctNames(init);
      RecordsShape(env, init, name, projectLevel);
      assert forall a :: a in agents <==> a in init || a == last;
      assert last.name !in Records(env, init, name, projectLevel).Keys by {
        forall a | a in init ensures a.name != last.name {
          var k :| 0 <= k < |init| && init[k] == a;
          assert agents[k] == a;
        }
      }
    }
  }

  /** When every agent's `SKILL.md` exists, the existence check reports every agent,
      in registry order. */
  lemma {:induction false} ResolveAll(env: Env, agents: seq<LocalAgent>, files: map<Path, string>, name: string,
                                      projectLevel: bool)
    requires forall a :: a in agents ==> SkillFile(env, a, name, projectLevel) in files
    ensures ResolveAmong(env, agents, files, name, projectLevel) == Entries(env, agents, name, projectLevel)
    decreases |agents|
  {
    if agents != [] {
      assert forall a :: a in agents[1..] ==> a in agents;
      ResolveAll(env, agents[1..], files, name, projectLevel);
      ResolveStep(env, agents, files, name, projectLevel);
      EntriesStep(env, agents, name, projectLevel);
    }
  }

  /** The existence check looks only at which files exist, not at what they hold. */
  lemma {:induction false} ResolveSameKeys(env: Env, agents: seq<LocalAgent>, files1: map<Path, string>,
                                           files2: map<Path, string>, name: string, projectLevel: bool)
    requires files1.Keys == files2.Keys
    ensures ResolveAmong(env, agents, files1, name, projectLevel) == ResolveAmong(env, agents, files2, name, projectLevel)
    decreases |agents|
  {
    if agents != [] {
      ResolveSameKeys(env, agents[1..], files1, files2, name, projectLevel);
    }
  }

  /** When no agent has the skill's `SKILL.md`, the existence check finds nothing. */
  lemma {:induction false} ResolveNone(env: Env, agents: seq<LocalAgent>, files: map<Path, string>, name: string,
                                       projectLevel: bool)
    requires forall a :: a in agents ==> SkillFile(env, a, name, projectLevel) !in files
    ensures ResolveAmong(env, agents, files, name, projectLevel) == []
    decreases |agents|
  {
    if agents != [] {
      assert forall a :: a in agents[1..] ==> a in agents;
      ResolveNone(env, agents[1..], files, name, projectLevel);
      assert agents[0] in agents;
    }
  }

  /** When no agent has the skill's `SKILL.md`, delete signals not found, and so does
      edit once the validator accepts the name; neither changes anything. */
  lemma NotFoundWithoutFiles(env: Env, t: FileTree, name: string, description: Option<string>, projectLevel: bool)
    requires forall a :: a in env.localAgents ==> SkillFile(env, a, name, projectLevel) !in t.files
    ensures Delete(env, t, name, projectLevel) == (t, Err(SkillError(NotFound(name))))
    ensures env.validateDescription(name) == [] ==>
      Edit(env, t, name, description, projectLevel) == (t, Err(SkillError(NotFound(name))))
  {
    ResolveNone(env, env.localAgents, t.files, name, projectLevel);
  }

  /** The same for every description at once: on a tree without the skill's files, a
      delete, and an edit whatever its description, signal not found. */
  lemma NothingLeftToFind(env: Env, t: FileTree, name: string, projectLevel: bool)
    requires forall a :: a in env.localAgents ==> SkillFile(env, a, name, projectLevel) !in t.files
    ensures Delete(env, t, name, projectLevel) == (t, Err(SkillError(NotFound(name))))
    ensures forall d :: env.validateDescription(name) == [] ==>
      Edit(env, t, name, d, projectLevel) == (t, Err(SkillError(NotFound(name))))
  {
    forall d: Option<string> | env.validateDescription(name) == []
      ensures Edit(env, t, name, d, projectLevel) == (t, Err(SkillError(NotFound(name))))
    {
      NotFoundWithoutFiles(env, t, name, d, projectLevel);
    }
    NotFoundWithoutFiles(env, t, name, None, projectLevel);
  }

  /** Create never overwrites a skill: when any agent already has the skill's
      `SKILL.md`, create (once the validators pass) hands back the existence check's
      mapping, naming that agent, and leaves the tree as it was. */
  lemma CreateKeepsExisting(env: Env, t: FileTree, name: string, description: string, projectLevel: bool,
                            a: LocalAgent)
    requires a in env.localAgents && SkillFile(env, a, name, projectLevel) in t.files
    ensures Create(env, t, name, description, projectLevel).0 == t
    ensures env.validateName(name) == [] && env.validateDescription(name) == [] ==>
      && Create(env, t, name, description, projectLevel).1 == Ok(AlreadyExists(Resolve(env, t.files, name, projectLevel)))
      && Entry(env, a, name, projectLevel) in Resolve(env, t.files, name, projectLevel)
  {
  }

  /** When some agent has the skill's `SKILL.md`, delete succeeds, and so does edit once
      the validator accepts the name and the description holds no backslash (a
      replacement escape, which `re.sub` processes or rejects). */
  lemma FoundSucceeds(env: Env, t: FileTree, name: string, description: Option<string>, projectLevel: bool,
                      a: LocalAgent)
    requires a in env.localAgents && SkillFile(env, a, name, projectLevel) in t.files
    ensures Delete(env, t, name, projectLevel).1 == Ok(true)
    ensures env.validateDescription(name) == [] && '\\' !in Show(description) ==>
      Edit(env, t, name, description, projectLevel).1 == Ok(true)
  {
  }

  /** After a create that wrote files: every agent's skill directory exists and its
      `SKILL.md` holds the rendered template; the report maps exactly the agents to
      their records; no other file changed; the only new directories lie on the
      paths to the skill directories. */
  lemma CreateOutcome(env: Env, t: FileTree, name: string, description: string, projectLevel: bool)
    requires DistinctNames(env.localAgents)
    requires Create(env, t, name, description, projectLevel).1.Ok?
    requires Create(env, t, name, description, projectLevel).1.value.Written?
    ensures var out := Create(env, t, name, description, projectLevel);
      var content := env.template(name, description);
      && (forall a :: a in env.localAgents ==>
            && SkillDir(env, a, name, projectLevel) in out.0.dirs
            && SkillFile(env, a, name, projectLevel) in out.0.files
            && out.0.files[SkillFile(env, a, name, projectLevel)] == content)
      && out.1.value.records.Keys == (set a | a in env.localAgents :: a.name)
      && (forall a :: a in env.localAgents ==>
            out.1.value.records[a.name] == SkillRecord(a.name, SkillFile(env, a, name, projectLevel)))
      && (forall p :: p !in WrittenBy(env, env.localAgents, name, projectLevel) ==>
            (p in out.0.files <==> p in t.files) && (p in t.files ==> out.0.files[p] == t.files[p]))
      && (forall d :: d in out.0.dirs <==>
            d in t.dirs || exists a :: a in env.localAgents && d <= SkillDir(env, a, name, projectLevel))
  {
    var agents := env.localAgents;
    var content := env.template(name, description);
    PopulateContents(env, t, agents, name, content, projectLevel);
    RecordsShape(env, agents, name, projectLevel);
    var out := Create(env, t, name, description, projectLevel);
    assert out.0 == Populate(env, t, agents, name, content, projectLevel);
    forall a | a in agents
      ensures SkillDir(env, a, name, projectLevel) in out.0.dirs
      ensures SkillFile(env, a, name, projectLevel) in WrittenBy(env, agents, name, projectLevel)
    {
      assert SkillDir(env, a, name, projectLevel) in Ancestors(SkillDir(env, a, name, projectLevel));
    }
    forall d ensures d in MadeBy(env, agents, name, projectLevel) <==>
      exists a :: a in agents && d <= SkillDir(env, a, name, projectLevel)
    {
      if exists a :: a in agents && d <= SkillDir(env, a, name, projectLevel) {
        var a :| a in agents && d <= SkillDir(env, a, name, projectLevel);
        assert d in Ancestors(SkillDir(env, a, name, projectLevel));
      }
    }
  }

  /** Creating a second time with the same arguments changes no file or directory.
      After a create that wrote files for at least one agent, the second call returns
      the existence check's agent-to-path mapping for every agent (not the record
      mapping the first call returned); otherwise it returns what the first did. */
  lemma CreateTwiceIsNoOp(env: Env, t: FileTree, name: string, description: string, projectLevel: bool)
    ensures var first := Create(env, t, name, description, projectLevel);
      var second := Create(env, first.0, name, description, projectLevel);
      && second.0 == first.0
      && second.1 == if first.1.Ok? && first.1.value.Written? && env.localAgents != []
                     then Ok(AlreadyExists(Entries(env, env.localAgents, name, projectLevel)))
                     else first.1
  {
    var first := Create(env, t, name, description, projectLevel);
    if first.1.Ok? && first.1.value.Written? {
      var agents := env.localAgents;
      var content := env.template(name, description);
      PopulateContents(env, t, agents, name, content, projectLevel);
      assert first.0 == Populate(env, t, agents, name, content, projectLevel);
      forall a | a in agents ensures SkillFile(env, a, name, projectLevel) in first.0.files {
        assert SkillFile(env, a, name, projectLevel) in WrittenBy(env, agents, name, projectLevel);
      }
      ResolveAll(env, agents, first.0.files, name, projectLevel);
      if agents == [] {
        assert first.0 == t;
      }
    }
  }

  /** The listed agent keeps its skills in `.<name>/skills` for some registered agent,
      the directory create writes into. */
  predicate Conventional(env: Env, listed: SupportedAgent) {
    exists a :: a in env.localAgents && listed.skillsDir == ["." + a.name, "skills"]
  }

  /** A listing in which every agent's skills directory exists succeeds and shows
      `name` under every agent whose skills directory holds it. */
  lemma ListShows(base: Path, dirs: set<Path>, agents: seq<SupportedAgent>, name: string)
    requires forall k :: 0 <= k < |agents| ==> SkillsPath(base, agents[k]) in dirs
    requires forall k :: 0 <= k < |agents| ==> SkillsPath(base, agents[k]) + [name] in dirs
    ensures ListAmong(base, dirs, agents).Ok?
    ensures forall k :: 0 <= k < |agents| ==>
      SkillsPath(base, agents[k]) + [name] in ListAmong(base, dirs, agents).value[k][agents[k].name]
  {
  }

  /** Create followed by a project-level listing: when each listed agent's skills
      directory follows the `.<agent>/skills` convention of some registered agent, the
      listing succeeds and shows the new skill's directory under every agent. */
  lemma CreateThenList(env: Env, t: FileTree, name: string, description: string)
    requires Create(env, t, name, description, true).1.Ok?
    requires Create(env, t, name, description, true).1.value.Written?
    requires forall k :: 0 <= k < |env.supportedAgents| ==> Conventional(env, env.supportedAgents[k])
    ensures var listing := Listing(env, Create(env, t, name, description, true).0.dirs, true);
      && listing.Ok?
      && forall k :: 0 <= k < |env.supportedAgents| ==>
           env.cwd + env.supportedAgents[k].skillsDir + [name] in listing.value[k][env.supportedAgents[k].name]
  {
    var agents := env.localAgents;
    var content := env.template(name, description);
    var t1 := Create(env, t, name, description, true).0;
    assert t1.dirs == t.dirs + MadeBy(env, agents, name, true) by {
      PopulateContents(env, t, agents, name, content, true);
    }
    var listed := env.supportedAgents;
    forall k | 0 <= k < |listed|
      ensures SkillsPath(env.cwd, listed[k]) in t1.dirs
      ensures SkillsPath(env.cwd, listed[k]) + [name] in t1.dirs
    {
      assert Conventional(env, listed[k]);
      var a :| a in env.localAgents && listed[k].skillsDir == ["." + a.name, "skills"];
      var dir := SkillDir(env, a, name, true);
      assert dir == SkillsPath(env.cwd, listed[k]) + [name];
      assert dir in MadeBy(env, agents, name, true) by {
        assert dir in Ancestors(dir);
      }
      assert SkillsPath(env.cwd, listed[k]) in MadeBy(env, agents, name, true) by {
        assert SkillsPath(env.cwd, listed[k]) in Ancestors(dir);
      }
    }
    ListShows(env.cwd, t1.dirs, listed, name);
  }

  /** After a delete: for every agent that had the skill, its skill directory and
      everything beneath it are gone; every path outside those directories is as it
      was; a further delete signals not found, and so does a further edit once the
      validator accepts the name. */
  lemma DeleteOutcome(env: Env, t: FileTree, name: string, projectLevel: bool)
    requires Delete(env, t, name, projectLevel).1.Ok?
    ensures var t1 := Delete(env, t, name, projectLevel).0;
      var found := Resolve(env, t.files, name, projectLevel);
      && (forall a :: a in env.localAgents && SkillFile(env, a, name, projectLevel) in t.files ==>
            forall p :: SkillDir(env, a, name, projectLevel) <= p ==> p !in t1.files && p !in t1.dirs)
      && (forall p :: Outside(p, DirsOf(found)) ==>
            (p in t1.files <==> p in t.files) && (p in t1.dirs <==> p in t.dirs))
      && (forall p :: p in t1.files ==> p in t.files && t1.files[p] == t.files[p])
      && Delete(env, t1, name, projectLevel) == (t1, Err(SkillError(NotFound(name))))
      && (forall d :: env.validateDescription(name) == [] ==>
            Edit(env, t1, name, d, projectLevel) == (t1, Err(SkillError(NotFound(name)))))
  {
    var found := Resolve(env, t.files, name, projectLevel);
    var roots := DirsOf(found);
    var t1 := Delete(env, t, name, projectLevel).0;
    assert t1 == RemoveTrees(t, roots);
    RemoveTreesContents(t, roots);
    forall a | a in env.localAgents && SkillFile(env, a, name, projectLevel) in t.files
      ensures forall p :: SkillDir(env, a, name, projectLevel) <= p ==> p !in t1.files && p !in t1.dirs
    {
      var e := Entry(env, a, name, projectLevel);
      assert e in found;
      var k :| 0 <= k < |found| && found[k] == e;
      assert roots[k] == SkillDir(env, a, name, projectLevel);
    }
    forall a | a in env.localAgents ensures SkillFile(env, a, name, projectLevel) !in t1.files {
      assert SkillDir(env, a, name, projectLevel) <= SkillFile(env, a, name, projectLevel);
    }
    NothingLeftToFind(env, t1, name, projectLevel);
  }

  /** A listing after a delete no longer shows the skill's directory for any agent
      that had it. */
  lemma DeleteThenList(env: Env, t: FileTree, name: string, projectLevel: bool, a: LocalAgent)
    requires Delete(env, t, name, projectLevel).1.Ok?
    requires a in env.localAgents && SkillFile(env, a, name, projectLevel) in t.files
    ensures var listing := Listing(env, Delete(env, t, name, projectLevel).0.dirs, projectLevel);
      listing.Ok? ==> forall k :: 0 <= k < |env.supportedAgents| ==>
        SkillDir(env, a, name, projectLevel) !in listing.value[k][env.supportedAgents[k].name]
  {
    DeleteOutcome(env, t, name, projectLevel);
  }

  /** After an edit: every found file holds the same text, the first found file's text
      as `read_text` returns it with its description line rewritten; every other file
      and every directory is as it was. */
  lemma EditOutcome(env: Env, t: FileTree, name: string, description: Option<string>, projectLevel: bool)
    requires Edit(env, t, name, description, projectLevel).1.Ok?
    requires '\\' !in Show(description)
    ensures var t1 := Edit(env, t, name, description, projectLevel).0;
      var found := Resolve(env, t.files, name, projectLevel);
      && found != []
      && (var edited := Rewrite(ReadText(t.files[found[0].1]), Show(description));
          forall e :: e in found ==> e.1 in t1.files && t1.files[e.1] == edited)
      && (forall p :: p in t.files && (forall e :: e in found ==> e.1 != p) ==> t1.files[p] == t.files[p])
      && t1.dirs == t.dirs && t1.files.Keys == t.files.Keys
  {
    var found := Resolve(env, t.files, name, projectLevel);
    var edited := Rewrite(ReadText(t.files[found[0].1]), Show(description));
    WriteAllContents(t, FilesOf(found), edited);
    forall e | e in found ensures e.1 in FilesOf(found) {
      var k :| 0 <= k < |found| && found[k] == e;
      assert FilesOf(found)[k] == e.1;
    }
    forall p | p in FilesOf(found) ensures exists e :: e in found && e.1 == p {
      var k :| 0 <= k < |FilesOf(found)| && FilesOf(found)[k] == p;
      assert found[k] in found;
    }
  }

  /** Reading back a rewritten text and rewriting it again with the same value gives
      the same text, when neither holds a `'\r'` and the value is non-blank and one line. */
  lemma RewriteReread(text: string, value: string)
    requires '\r' !in text
    requires exists n :: 0 <= n < |value| && !IsSpace(value[n])
    requires '\n' !in value && '\r' !in value
    ensures Rewrite(ReadText(Rewrite(text, value)), value) == Rewrite(text, value)
  {
    RewriteAddsNothing(text, value, '\r');
    RewriteIdempotent(text, value);
  }

  /** Editing a second time with the same description changes nothing, provided the
      description has a non-whitespace character and no line break of either kind: the
      second read then returns the text the first edit wrote. */
  lemma EditTwiceIsNoOp(env: Env, t: FileTree, name: string, description: Option<string>, projectLevel: bool)
    requires exists n :: 0 <= n < |Show(description)| && !IsSpace(Show(description)[n])
    requires '\n' !in Show(description) && '\r' !in Show(description) && '\\' !in Show(description)
    ensures var first := Edit(env, t, name, description, projectLevel);
      Edit(env, first.0, name, description, projectLevel) == first
  {
    var first := Edit(env, t, name, description, projectLevel);
    if first.1.Ok? {
      var v := Show(description);
      var found := Resolve(env, t.files, name, projectLevel);
      var text := ReadText(t.files[found[0].1]);
      var edited := Rewrite(text, v);
      var t1 := first.0;
      assert found != [] && found[0] in found;
      assert t1 == WriteAll(t, FilesOf(found), edited);
      assert forall p :: p in FilesOf(found) ==> p in t1.files && t1.files[p] == edited by {
        EditOutcome(env, t, name, description, projectLevel);
        forall p | p in FilesOf(found) ensures exists e :: e in found && e.1 == p {
          var k :| 0 <= k < |FilesOf(found)| && FilesOf(found)[k] == p;
          assert found[k] in found;
        }
      }
      assert Resolve(env, t1.files, name, projectLevel) == found by {
        ResolveSameKeys(env, env.localAgents, t.files, t1.files, name, projectLevel);
      }
      assert found[0].1 in FilesOf(found) by {
        assert FilesOf(found)[0] == found[0].1;
      }
      assert t1.files[found[0].1] == edited;
      RewriteReread(text, v);
      assert WriteAll(t1, FilesOf(found), edited) == t1 by {
        WriteAllUnchanged(t1, FilesOf(found), edited);
      }
    }
  }

  /** The edit scenario: when the first found file, as read, has a `description:` line,
      after the edit every found file's first such line is exactly `description: <value>`. */
  lemma EditShowsNewLine(env: Env, t: FileTree, name: string, description: Option<string>, projectLevel: bool, i: nat)
    requires Edit(env, t, name, description, projectLevel).1.Ok?
    requires '\n' !in Show(description) && '\\' !in Show(description)
    requires var found := Resolve(env, t.files, name, projectLevel);
      found != [] && FindKey(ReadText(t.files[found[0].1]), 0) == Some(i)
    ensures var t1 := Edit(env, t, name, description, projectLevel).0;
      var v := Show(description);
      forall e :: e in Resolve(env, t.files, name, projectLevel) ==>
        var r := t1.files[e.1];
        && FindKey(r, 0) == Some(i)
        && Replacement + v <= r[i..]
        && (i + |Replacement| + |v| == |r| || r[i + |Replacement| + |v|] == '\n')
  {
    var found := Resolve(env, t.files, name, projectLevel);
    var s := ReadText(t.files[found[0].1]);
    var v := Show(description);
    var r := Rewrite(s, v);
    var t1 := Edit(env, t, name, description, projectLevel).0;
    assert forall e :: e in found ==> t1.files[e.1] == r by {
      EditOutcome(env, t, name, description, projectLevel);
    }
    RewriteShowsLine(s, v, i);
  }
}
