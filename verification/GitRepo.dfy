/**
 The git repository as the syncer sees it: a commit graph, HEAD, the remote's branches and the local record of them,
 and what each git command may answer and change.
 */
module GitRepo {

  datatype Option<T> = None | Some(value: T)

  /** Commits are numbered so that parents have smaller numbers than their children. */
  type Commit = nat

  type Dag = map<Commit, set<Commit>>

  ghost predicate DagOk(dag: Dag) {
    forall c :: c in dag ==> forall p :: p in dag[c] ==> p < c && p in dag
  }

  /** a is c or an ancestor of c. */
  ghost predicate Ancestor(dag: Dag, a: Commit, c: Commit)
    decreases c
  {
    a == c || (c in dag && exists p :: p in dag[c] && p < c && Ancestor(dag, a, p))
  }

  /** Commits are only ever added, and never change. */
  ghost predicate Grows(dag: Dag, dag': Dag) {
    forall c :: c in dag ==> c in dag' && dag'[c] == dag[c]
  }

  lemma {:induction false} AncestorTransitive(dag: Dag, a: Commit, b: Commit, c: Commit)
    requires Ancestor(dag, a, b) && Ancestor(dag, b, c)
    ensures Ancestor(dag, a, c)
    decreases c
  {
    if b != c {
      var p :| p in dag[c] && p < c && Ancestor(dag, b, p);
      AncestorTransitive(dag, a, b, p);
    }
  }

  lemma {:induction false} AncestorNotLater(dag: Dag, a: Commit, c: Commit)
    requires Ancestor(dag, a, c)
    ensures a <= c
    decreases c
  {
    if a != c {
      var p :| p in dag[c] && p < c && Ancestor(dag, a, p);
      AncestorNotLater(dag, a, p);
    }
  }

  /** Adding commits does not change the ancestors of a commit that was already there. */
  lemma {:induction false} AncestorStable(dag: Dag, dag': Dag, a: Commit, c: Commit)
    requires DagOk(dag) && Grows(dag, dag') && c in dag
    ensures Ancestor(dag, a, c) <==> Ancestor(dag', a, c)
    decreases c
  {
    if a != c {
      forall p | p in dag[c] ensures Ancestor(dag, a, p) <==> Ancestor(dag', a, p) {
        AncestorStable(dag, dag', a, p);
      }
    }
  }

  /** dirty: tracked files differ from HEAD; upstream: branch.<name>.merge without its refs/heads/ prefix. */
  datatype Repo = Repo(
    dag: Dag, headBranch: Option<string>, head: Commit, dirty: bool,
    tracking: map<string, Commit>, remote: map<string, Commit>, upstream: map<string, string>)

  ghost predicate RepoOk(repo: Repo) {
    && DagOk(repo.dag)
    && repo.head in repo.dag
    && (forall b :: b in repo.tracking ==> repo.tracking[b] in repo.dag)
    && (forall b :: b in repo.remote ==> repo.remote[b] in repo.dag)
  }

  /** Everything the outside world may do between two steps: commit, edit, switch, reset, push, rewind. */
  ghost predicate Interferes(repo: Repo, repo': Repo) {
    RepoOk(repo') && Grows(repo.dag, repo'.dag)
  }

  datatype Command =
    | ShowToplevel
    | SymbolicRef
    | UpstreamConfig(branch: string)
    | Fetch(branch: string)
    | RevParseTracking(branch: string)
    | RevParseHead
    | StatusTracked
    | IsAncestor(a: Commit, c: Commit)
    | MergeFfOnly(target: Commit)

  datatype Output = Nothing | Name(name: string) | Sha(commit: Commit) | Changes(present: bool)

  /** Exit code zero with the output, another exit code, a timeout, or any other exception. */
  datatype Reply = Exit0(out: Output) | NonZero | TimedOut | Broke

  /** The fetched branch replaces the local record of it, forced or not. */
  function Fetched(repo: Repo, branch: string): Repo
    requires branch in repo.remote
  {
    repo.(tracking := repo.tracking[branch := repo.remote[branch]])
  }

  /**
   What git may do. A command may fail at any time. A nonzero exit changes nothing; a command that is
   killed by its timeout, or lost to another exception, may or may not have taken effect.
   `merge --ff-only` moves HEAD only to a descendant, and succeeds without moving when HEAD already contains the target.
   */
  ghost predicate GitRuns(repo: Repo, cmd: Command, reply: Reply, repo': Repo) {
    match cmd
    case ShowToplevel => repo' == repo && (reply.Exit0? ==> reply.out == Nothing)
    case SymbolicRef => repo' == repo && (reply.Exit0? ==> repo.headBranch.Some? && reply.out == Name(repo.headBranch.value))
    case UpstreamConfig(b) =>
      && repo' == repo
      && (reply.Exit0? ==> reply.out == Nothing || (b in repo.upstream && reply.out == Name(repo.upstream[b])))
    case Fetch(b) =>
      if reply.Exit0? then b in repo.remote && reply.out == Nothing && repo' == Fetched(repo, b)
      else repo' == repo || (!reply.NonZero? && b in repo.remote && repo' == Fetched(repo, b))
    case RevParseTracking(b) => repo' == repo && (reply.Exit0? ==> b in repo.tracking && reply.out == Sha(repo.tracking[b]))
    case RevParseHead => repo' == repo && (reply.Exit0? ==> reply.out == Sha(repo.head))
    case StatusTracked => repo' == repo && (reply.Exit0? ==> reply.out == Changes(repo.dirty))
    case IsAncestor(a, c) => repo' == repo && (reply.Exit0? ==> reply.out == Nothing && Ancestor(repo.dag, a, c))
    case MergeFfOnly(c) =>
      if reply.Exit0? then reply.out == Nothing && (FastForwards(repo, c, repo') || (Ancestor(repo.dag, c, repo.head) && repo' == repo))
      else repo' == repo || (!reply.NonZero? && FastForwards(repo, c, repo'))
  }

  ghost predicate FastForwards(repo: Repo, c: Commit, repo': Repo) {
    c in repo.dag && Ancestor(repo.dag, repo.head, c) && repo' == repo.(head := c)
  }

  /** The answer of a command that does not fail. */
  ghost function Answer(repo: Repo, cmd: Command): Reply {
    match cmd
    case ShowToplevel => Exit0(Nothing)
    case SymbolicRef => if repo.headBranch.Some? then Exit0(Name(repo.headBranch.value)) else NonZero
    case UpstreamConfig(b) => if b in repo.upstream then Exit0(Name(repo.upstream[b])) else NonZero
    case Fetch(b) => if b in repo.remote then Exit0(Nothing) else NonZero
    case RevParseTracking(b) => if b in repo.tracking then Exit0(Sha(repo.tracking[b])) else NonZero
    case RevParseHead => Exit0(Sha(repo.head))
    case StatusTracked => Exit0(Changes(repo.dirty))
    case IsAncestor(a, c) => if Ancestor(repo.dag, a, c) then Exit0(Nothing) else NonZero
    case MergeFfOnly(c) => if c in repo.dag && (Ancestor(repo.dag, repo.head, c) || Ancestor(repo.dag, c, repo.head)) then Exit0(Nothing) else NonZero
  }

  /** The repository after a command that does not fail. */
  ghost function After(repo: Repo, cmd: Command): Repo {
    match cmd
    case Fetch(b) => if b in repo.remote then Fetched(repo, b) else repo
    case MergeFfOnly(c) => if c in repo.dag && Ancestor(repo.dag, repo.head, c) then repo.(head := c) else repo
    case _ => repo
  }

  lemma AnswerIsPossible(repo: Repo, cmd: Command)
    ensures GitRuns(repo, cmd, Answer(repo, cmd), After(repo, cmd)) && GitRuns(repo, cmd, NonZero, repo)
  {
    hide Ancestor;
  }

  /** A command that is killed, or lost to another exception, may have taken effect or not. */
  lemma CutOffIsPossible(repo: Repo, cmd: Command, reply: Reply)
    requires reply.TimedOut? || reply.Broke?
    ensures GitRuns(repo, cmd, reply, repo) && GitRuns(repo, cmd, reply, After(repo, cmd))
  {
    hide Ancestor;
  }

  /** No git command of the syncer ever moves HEAD to anything but a descendant. */
  lemma CommandKeepsHead(repo: Repo, cmd: Command, reply: Reply, repo': Repo)
    requires RepoOk(repo) && GitRuns(repo, cmd, reply, repo')
    ensures RepoOk(repo') && repo'.dag == repo.dag
    ensures Ancestor(repo.dag, repo.head, repo'.head)
    ensures repo'.head != repo.head ==> cmd.MergeFfOnly? && !reply.NonZero? && repo'.head == cmd.target
  {
  }
}
