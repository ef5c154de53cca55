/** Taking in the projects of subdirectories that are referred to by name. */
module ConfigProjects {
  import opened Graphs
  import opened Names

  /** A project: the names it depends on, and the rest of its description. */
  datatype Project = Project(dependencies: set<Name>, description: string)

  type Projects = map<Name, Project>

  /** The projects of subdirectories that a project names; where a name is described twice, the
      project that was there from the start counts. */
  ghost function References(initial: Projects, subdirs: Projects): Name -> set<Name> {
    n =>
      if n in initial then initial[n].dependencies * subdirs.Keys
      else if n in subdirs then subdirs[n].dependencies * subdirs.Keys
      else {}
  }

  /** The initial projects as they were, and others as their subdirectories describe them. */
  ghost predicate IsExtension(initial: Projects, subdirs: Projects, m: Projects) {
    && (forall n | n in initial :: n in m && m[n] == initial[n])
    && (forall n | n in m && n !in initial :: n in subdirs && m[n] == subdirs[n])
    && (forall n | n in m :: ReachedFrom(References(initial, subdirs), initial.Keys, n))
  }

  /** The project as it was, or else as its subdirectory describes it. */
  predicate IsDescribed(initial: Projects, subdirs: Projects, n: Name, p: Project) {
    if n in initial then p == initial[n] else n in subdirs && p == subdirs[n]
  }

  /** What one pass takes in: subdirectory projects, not yet there, that some project names. */
  ghost predicate IsNamed(m: Projects, subdirs: Projects, n: Name) {
    n in subdirs && n !in m && exists p :: p in m && n in m[p].dependencies
  }

  lemma ExtendedByNamed(initial: Projects, subdirs: Projects, m: Projects, included: Projects)
    requires IsExtension(initial, subdirs, m)
    requires forall n | n in included :: IsNamed(m, subdirs, n) && included[n] == subdirs[n]
    ensures IsExtension(initial, subdirs, m + included)
  {
    hide References, ReachedFrom, IsNamed;
    forall n | n in included
      ensures n in subdirs && n !in m && ReachedFrom(References(initial, subdirs), initial.Keys, n)
    {
      NamedIsReached(initial, subdirs, m, n);
    }
  }

  lemma NamedIsReached(initial: Projects, subdirs: Projects, m: Projects, n: Name)
    requires IsExtension(initial, subdirs, m) && IsNamed(m, subdirs, n)
    ensures n in subdirs && n !in m && ReachedFrom(References(initial, subdirs), initial.Keys, n)
  {
    var refs := References(initial, subdirs);
    var p :| p in m && n in m[p].dependencies;
    assert n in refs(p);
    var a :| a in initial.Keys && Reaches(refs, a, p);
    ReachesEdge(refs, p, n);
    ReachesTransitive(refs, a, p, n);
  }

  lemma NoneNamedIsLeast(initial: Projects, subdirs: Projects, m: Projects)
    requires IsExtension(initial, subdirs, m) && forall n :: !IsNamed(m, subdirs, n)
    ensures forall n :: n in m <==> ReachedFrom(References(initial, subdirs), initial.Keys, n)
  {
    hide ReachedFrom;
    var refs := References(initial, subdirs);
    forall p | p in m.Keys
      ensures refs(p) <= m.Keys
    {
      forall n | n in refs(p)
        ensures n in m
      {
        assert n in m[p].dependencies && !IsNamed(m, subdirs, n);
      }
    }
    ClosedAndReached(refs, initial.Keys, m.Keys);
  }

  lemma InitialIsExtension(initial: Projects, subdirs: Projects)
    ensures IsExtension(initial, subdirs, initial)
  {
    forall n | n in initial
      ensures ReachedFrom(References(initial, subdirs), initial.Keys, n)
    {
      ReachesSelf(References(initial, subdirs), n);
    }
  }

  class Config {
    var projects: Projects

    constructor (projects: Projects)
      ensures this.projects == projects
    {
      this.projects := projects;
    }

    /** Repeats passes over all projects until one takes nothing in. The outcome is the least set
        of projects that holds the initial ones and every subdirectory project a member names. */
    method IncludeReferenced(subdirProjects: Projects)
      modifies this
      ensures forall n :: n in projects <==>
                ReachedFrom(References(old(projects), subdirProjects), old(projects).Keys, n)
      ensures forall n | n in projects ::
                IsDescribed(old(projects), subdirProjects, n, projects[n])
    {
      hide IsExtension, References, IsNamed;
      InitialIsExtension(projects, subdirProjects);
      while true
        invariant IsExtension(old(projects), subdirProjects, projects)
        decreases |subdirProjects.Keys - projects.Keys|
      {
        ghost var before := projects;
        var included, added := IncludedByPass(subdirProjects);
        ExtendedByNamed(old(projects), subdirProjects, projects, included);
        PassAdds(projects, subdirProjects, included);
        projects := projects + included;
        if !added {
          assert projects == before;
          NoneNamedIsLeast(old(projects), subdirProjects, projects);
          ExtensionDescribes(old(projects), subdirProjects, projects);
          break;
        }
      }
    }

    method IncludedByPass(subdirProjects: Projects) returns (included: Projects, added: bool)
      ensures forall n :: n in included <==> IsNamed(projects, subdirProjects, n)
      ensures forall n | n in included :: n in subdirProjects && included[n] == subdirProjects[n]
      ensures added <==> included != map[]
    {
      included, added := map[], false;
      var todo := projects.Keys;
      while todo != {}
        invariant todo <= projects.Keys
        invariant forall n | n in included :: IsNamed(projects, subdirProjects, n) && included[n] == subdirProjects[n]
        invariant forall p, n | p in projects && p !in todo && n in projects[p].dependencies ::
                    n in subdirProjects && n !in projects ==> n in included
        invariant added <==> included != map[]
        decreases |todo|
      {
        var p :| p in todo;
        todo := todo - {p};
        var names := projects[p].dependencies;
        while names != {}
          invariant names <= projects[p].dependencies
          invariant forall n | n in included :: IsNamed(projects, subdirProjects, n) && included[n] == subdirProjects[n]
          invariant forall q, n | q in projects && q !in todo && q != p && n in projects[q].dependencies ::
                      n in subdirProjects && n !in projects ==> n in included
          invariant forall n | n in projects[p].dependencies && n !in names ::
                      n in subdirProjects && n !in projects ==> n in included
          invariant added <==> included != map[]
          decreases |names|
        {
          var n :| n in names;
          names := names - {n};
          if n in subdirProjects && n !in projects {
            included := included[n := subdirProjects[n]];
            assert n in included;
            added := true;
          }
        }
      }
    }
  }

  lemma PassAdds(m: Projects, subdirs: Projects, included: Projects)
    requires forall n | n in included :: IsNamed(m, subdirs, n)
    ensures included == map[] ==> m + included == m
    ensures included != map[] ==> |subdirs.Keys - (m + included).Keys| < |subdirs.Keys - m.Keys|
  {
    var a, b := subdirs.Keys - (m + included).Keys, subdirs.Keys - m.Keys;
    if included != map[] {
      var n :| n in included;
      assert b == a + (b - a) && n in b - a;
    }
  }

  lemma ExtensionDescribes(initial: Projects, subdirs: Projects, m: Projects)
    requires IsExtension(initial, subdirs, m)
    ensures forall n | n in m :: IsDescribed(initial, subdirs, n, m[n])
  {
  }
}
