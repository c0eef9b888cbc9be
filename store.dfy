/**
 * The in-memory project store: the projects by identifier, the per-project
 * append-only log of file additions, and the pointer to the current project.
 * Each route that touches them is a method of `Store`; the clock readings the
 * routes take are passed in as parameters.
 */
module ProjectStore {
  import opened Results
  import opened Extensions
  import Naming
  import Text

  /** One file of a project: its text, when it was added and the language tag it was added with. */
  datatype FileRecord = FileRecord(content: string, createdAt: string, language: string)

  datatype Project = Project(
    name: string,
    language: string,
    files: map<string, FileRecord>,
    createdAt: string,
    readme: string)

  /** One line of a project's history log. */
  datatype Entry = Entry(timestamp: string, action: string, filename: string, content: string)

  /** What a successful `add_file` answers with. */
  datatype Added = Added(filename: string, project: Project)

  /** What a successful `rollback` answers with. */
  datatype Restored = Restored(content: string, filename: string)

  const ADD_FILE: string := "add_file"
  const INVALID_PROJECT: string := "Invalid project"
  const NO_HISTORY: string := "No history found"
  const INVALID_VERSION: string := "Invalid version"

  /** How many of the latest log entries `get_history` shows. */
  const RECENT: nat := 10

  /** A project's identifier, from the creation time written to the second (`%Y%m%d_%H%M%S`). */
  function ProjectId(stamp: string): string {
    "project_" + stamp
  }

  /** Creations stamped with different seconds get different identifiers. */
  lemma ProjectIdInjective(a: string, b: string)
    ensures ProjectId(a) == ProjectId(b) ==> a == b
  {
    if ProjectId(a) == ProjectId(b) {
      assert a == ProjectId(a)[8..] && b == ProjectId(b)[8..];
    }
  }

  /**
   * `data.get('project_id', current_project_id)`: the requested identifier when the
   * request has one, otherwise the current project (possibly none).
   */
  function Resolve(requested: Option<string>, current: Option<string>): Option<string> {
    if requested.Some? then requested else current
  }

  /** `add_file`'s guard `not project_id or project_id not in projects`, negated. */
  predicate IsTarget(id: Option<string>, projects: map<string, Project>) {
    id.Some? && id.value != "" && id.value in projects
  }

  /** Some entry of `log` recorded `content` for `filename`. */
  ghost predicate Logged(log: seq<Entry>, filename: string, content: string) {
    exists i :: 0 <= i < |log| && log[i].filename == filename && log[i].content == content
  }

  /** A project's log as `add_file` builds it: never empty, every entry an `add_file`. */
  ghost predicate WellFormedLog(log: seq<Entry>) {
    |log| > 0 && forall i :: 0 <= i < |log| ==> log[i].action == ADD_FILE
  }

  lemma LoggedExtended(log: seq<Entry>, e: Entry, filename: string, content: string)
    requires Logged(log, filename, content)
    ensures Logged(log + [e], filename, content)
  {
    var i :| 0 <= i < |log| && log[i].filename == filename && log[i].content == content;
    assert (log + [e])[i] == log[i];
  }

  class Store {
    var projects: map<string, Project>
    var history: map<string, seq<Entry>>
    var current: Option<string>

    /**
     * What the routes keep true of the three globals: only projects have logs;
     * the current project exists; logs only hold `add_file` entries; and every
     * file of a project holds a content its log recorded for that name.
     */
    ghost predicate Valid()
      reads this
    {
      && history.Keys <= projects.Keys
      && (current.Some? ==> current.value in projects)
      && (forall id :: id in history ==> WellFormedLog(history[id]))
      && (forall id, f :: id in projects && f in projects[id].files ==>
            id in history && Logged(history[id], f, projects[id].files[f].content))
    }

    /** The state at process start: no projects, no logs, no current project. */
    constructor ()
      ensures Valid()
      ensures projects == map[] && history == map[] && current == None
    {
      projects := map[];
      history := map[];
      current := None;
    }

    /**
     * `create_project`: stores an empty project under `project_<stamp>` and makes
     * it current. A project created earlier in the same second is replaced,
     * and whatever that identifier had logged stays in the log.
     */
    method CreateProject(name: string, language: string, stamp: string, createdAt: string)
      returns (id: string, project: Project)
      requires Valid()
      modifies this
      ensures Valid()
      ensures id == ProjectId(stamp)
      ensures project == Project(name, language, map[], createdAt, "")
      ensures projects == old(projects)[id := project]
      ensures history == old(history)
      ensures current == Some(id)
    {
      id := ProjectId(stamp);
      project := Project(name, language, map[], createdAt, "");
      projects := projects[id := project];
      current := Some(id);
    }

    /**
     * `add_file`. Fails with `Invalid project`, changing nothing, unless the
     * resolved identifier names a project. Otherwise the file name is the one
     * given, or when none is given the first free automatic name for the
     * request's language; that one name of the project's files is set
     * (inserted or overwritten) and one `add_file` entry is appended to the
     * project's log. Nothing else changes.
     */
    method AddFile(requested: Option<string>, filename: string, content: string, language: string,
                   fileTime: string, logTime: string)
      returns (r: Result<Added>)
      requires Valid()
      modifies this
      ensures Valid()
      ensures current == old(current)
      ensures r.Ok? <==> IsTarget(Resolve(requested, old(current)), old(projects))
      ensures r.Err? ==> r.error == INVALID_PROJECT && projects == old(projects) && history == old(history)
      ensures r.Ok? ==>
        var id := Resolve(requested, old(current)).value;
        var before := old(projects)[id];
        var name := r.value.filename;
        var log := if id in old(history) then old(history)[id] else [];
        && (filename != "" ==> name == filename)
        && (filename == "" ==>
              && name !in before.files
              && exists n: nat :: name == Naming.Candidate(n, FileExtension(language))
                   && Naming.FirstFree(before.files.Keys, FileExtension(language), n))
        && projects == old(projects)[id := before.(files := before.files[name := FileRecord(content, fileTime, language)])]
        && history == old(history)[id := log + [Entry(logTime, ADD_FILE, name, content)]]
        && r.value.project == projects[id]
    {
      var target := Resolve(requested, current);
      if !IsTarget(target, projects) {
        return Err(INVALID_PROJECT);
      }
      var id := target.value;
      var name := filename;
      if name == "" {
        name := Naming.AutoName(projects[id].files.Keys, language);
      }
      var before := projects[id];
      var log := if id in history then history[id] else [];
      var entry := Entry(logTime, ADD_FILE, name, content);
      projects := projects[id := before.(files := before.files[name := FileRecord(content, fileTime, language)])];
      history := history[id := log + [entry]];
      r := Ok(Added(name, projects[id]));

      assert Logged(history[id], name, content) by {
        assert history[id][|log|] == entry;
      }
      forall f | f in before.files && f != name
        ensures Logged(history[id], f, before.files[f].content)
      {
        LoggedExtended(log, entry, f, before.files[f].content);
      }
    }

    /**
     * `get_history`: the last ten entries of the project's log, or all of them
     * when there are fewer, in their logged order; none for a project with no log.
     */
    function GetHistory(id: string): (recent: seq<Entry>)
      reads this
      ensures id !in history ==> recent == []
      ensures id in history ==>
        var log := history[id];
        && |recent| == (if |log| < RECENT then |log| else RECENT)
        && log == log[..|log| - |recent|] + recent
    {
      if id !in history then []
      else if |history[id]| <= RECENT then history[id]
      else history[id][|history[id]| - RECENT..]
    }

    /**
     * `rollback`. Fails with `No history found` when the resolved project has no
     * log, and with `Invalid version` when the index is outside the log; neither
     * changes anything. Otherwise it answers with the file name and content of
     * log entry `versionIndex` and writes that content back into the file of that
     * name, leaving its other fields alone, but only if the project still has
     * such a file. The log and every other file stay as they were.
     */
    method Rollback(requested: Option<string>, versionIndex: int) returns (r: Result<Restored>)
      requires Valid()
      modifies this
      ensures Valid()
      ensures history == old(history) && current == old(current)
      ensures var id := Resolve(requested, old(current));
        id.None? || id.value !in old(history) ==> r == Err(NO_HISTORY) && projects == old(projects)
      ensures var id := Resolve(requested, old(current));
        id.Some? && id.value in old(history) && !(0 <= versionIndex < |old(history)[id.value]|) ==>
          r == Err(INVALID_VERSION) && projects == old(projects)
      ensures var id := Resolve(requested, old(current));
        id.Some? && id.value in old(history) && 0 <= versionIndex < |old(history)[id.value]| ==>
          var e := old(history)[id.value][versionIndex];
          && r == Ok(Restored(e.content, e.filename))
          && projects == (
               if id.value in old(projects) && e.filename in old(projects)[id.value].files then
                 var p := old(projects)[id.value];
                 old(projects)[id.value := p.(files := p.files[e.filename := p.files[e.filename].(content := e.content)])]
               else old(projects))
    {
      var target := Resolve(requested, current);
      if target.None? || target.value !in history {
        return Err(NO_HISTORY);
      }
      var id := target.value;
      var log := history[id];
      if versionIndex >= |log| || versionIndex < 0 {
        return Err(INVALID_VERSION);
      }
      var version := log[versionIndex];
      var name := version.filename;
      var content := version.content;
      if id in projects && name in projects[id].files {
        var p := projects[id];
        projects := projects[id := p.(files := p.files[name := p.files[name].(content := content)])];
      }
      r := Ok(Restored(content, name));
    }
  }

  /**
   * A session: create a Python project, add two unnamed files, read the log and
   * roll back to the first entry. The two files are named `main.py` and
   * `file1.py`, the log shows both entries in order, and rolling back answers
   * with the first content.
   */
  method Session() {
    assert Naming.Candidate(0, ".py") == "main.py" && Naming.Candidate(1, ".py") == "file1.py" by {
      assert Text.NatToString(1) == "1";
    }
    assert Naming.FirstFree({}, ".py", 0);
    assert Naming.FirstFree({"main.py"}, ".py", 1);
    var store := new Store();
    var id, _ := store.CreateProject("Demo", "python", "20240101_120000", "2024-01-01T12:00:00");
    assert FileExtension("python") == ".py";
    var first := store.AddFile(Some(id), "", "print(1)", "python", "t1", "t1");
    assert first.Ok?;
    ghost var n1: nat :| first.value.filename == Naming.Candidate(n1, ".py") && Naming.FirstFree({}, ".py", n1);
    Naming.FirstFreeUnique({}, ".py", n1, 0);
    assert first.value.filename == "main.py";
    assert store.projects[id].files.Keys == {"main.py"};
    var second := store.AddFile(Some(id), "", "print(2)", "python", "t2", "t2");
    assert second.Ok?;
    ghost var n2: nat :| second.value.filename == Naming.Candidate(n2, ".py") && Naming.FirstFree({"main.py"}, ".py", n2);
    Naming.FirstFreeUnique({"main.py"}, ".py", n2, 1);
    assert second.value.filename == "file1.py";
    assert store.history[id] == [Entry("t1", ADD_FILE, "main.py", "print(1)"), Entry("t2", ADD_FILE, "file1.py", "print(2)")];
    var recent := store.GetHistory(id);
    assert recent == store.history[id];
    var back := store.Rollback(Some(id), 0);
    assert back == Ok(Restored("print(1)", "main.py"));
  }
}
