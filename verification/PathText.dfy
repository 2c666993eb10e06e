/**
 The text of a path: how the tracer writes the names it has climbed through, and
 that the text resolves through exactly those names again.
 */
module PathText {

  /** How make_inode_path writes the names it has climbed through. */
  ghost function Render(basedir: string, names: seq<string>): string {
    if names == [] then basedir + "/"
    else Render(basedir, names[..|names| - 1]) + "/" + names[|names| - 1]
  }

  predicate IsOpen(path: string) {
    path != "" && path[|path| - 1] != '/'
  }

  /** The names a path is resolved through: the stretches between its slashes. */
  function Components(path: string): (r: seq<string>)
    ensures IsOpen(path) ==> r != []
  {
    if path == "" then []
    else
      var front, c := path[..|path| - 1], path[|path| - 1];
      if c == '/' then Components(front)
      else if IsOpen(front) then Lengthen(Components(front), c)
      else Components(front) + [[c]]
  }

  /** The last name grows by one character. */
  function Lengthen(names: seq<string>, c: char): seq<string>
    requires names != []
  {
    names[..|names| - 1] + [names[|names| - 1] + [c]]
  }

  lemma ComponentsStep(path: string, c: char)
    ensures Components(path + [c]) ==
            if c == '/' then Components(path)
            else if IsOpen(path) then Lengthen(Components(path), c)
            else Components(path) + [[c]]
  {
    assert (path + [c])[..|path|] == path;
  }

  lemma FirstCharacter(path: string, c: char)
    requires c != '/'
    ensures Components(path + "/" + [c]) == Components(path) + [[c]]
  {
    ComponentsStep(path, '/');
    ComponentsStep(path + "/", c);
  }

  lemma NextCharacter(path: string, front: string, c: char)
    requires front != "" && front[|front| - 1] != '/' && c != '/'
    requires Components(path + "/" + front) == Components(path) + [front]
    ensures Components(path + "/" + (front + [c])) == Components(path) + [front + [c]]
  {
    var open := path + "/" + front;
    assert open[|open| - 1] == front[|front| - 1] && path + "/" + (front + [c]) == open + [c];
    ComponentsStep(open, c);
  }

  /** One more name at the end of a path. */
  lemma {:induction false} ComponentsAppend(path: string, name: string)
    requires '/' !in name && name != ""
    ensures Components(path + "/" + name) == Components(path) + [name]
    decreases |name|
  {
    var front, c := name[..|name| - 1], name[|name| - 1];
    assert name == front + [c];
    if front == "" {
      assert name == [c];
      FirstCharacter(path, c);
    } else {
      NoSlashInFront(name);
      ComponentsAppend(path, front);
      NextCharacter(path, front, c);
    }
  }

  lemma NoSlashInFront(name: string)
    requires '/' !in name && |name| > 1
    ensures '/' !in name[..|name| - 1] && name[|name| - 2] != '/'
  {
    assert name[|name| - 2] in name;
  }

  /** What is written below the base directory resolves through exactly the names climbed through. */
  lemma {:induction false} RenderResolves(basedir: string, names: seq<string>)
    requires forall i :: 0 <= i < |names| ==> names[i] != "" && '/' !in names[i]
    ensures Components(Render(basedir, names)) == Components(basedir) + names
    decreases |names|
  {
    if names == [] {
      ComponentsStep(basedir, '/');
    } else {
      var front, last := names[..|names| - 1], names[|names| - 1];
      RenderResolves(basedir, front);
      ComponentsAppend(Render(basedir, front), last);
      assert Components(basedir) + front + [last] == Components(basedir) + (front + [last]) && front + [last] == names;
    }
  }
}
