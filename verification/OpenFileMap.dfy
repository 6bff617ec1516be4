/** The table of open file descriptors: a counter that wraps around, and lazy validation after it has. */
module OpenFileMap {
  import opened Sizes

  const START_FD: int := 10000

  /** The state between calls. */
  datatype Table<F> = Table(files: map<int, F>, next: int, validate: bool)

  datatype Op<F> = Add(file: F) | Remove(fd: int) | Dup(oldfd: int) | Dup2(oldfd: int, newfd: int)

  // ----- what the operations do -----

  /** Where the search for a descriptor starts, and whether it checks for descriptors in use. */
  function First<F>(t: Table<F>): int {
    if t.next == INT_MAX then START_FD else t.next
  }

  predicate Validates<F>(t: Table<F>) {
    t.validate || t.next == INT_MAX
  }

  /** Everything from `start` up to `fd`, in cyclic order, is in use. */
  ghost predicate AllUsed<F>(files: map<int, F>, start: int, fd: int) {
    if start <= fd then forall c :: start <= c < fd ==> c in files
    else forall c :: start <= c < INT_MAX || START_FD <= c < fd ==> c in files
  }

  /** safe_generate_fd_idx_: the counter's value, or the first unused one from there on when it validates. */
  ghost predicate Allocates<F>(t: Table<F>, fd: int) {
    && START_FD <= fd < INT_MAX
    && (if Validates(t) then fd !in t.files && AllUsed(t.files, First(t), fd) else fd == t.next)
  }

  /** Inserting does not replace: with a descriptor in use, the new file is dropped. */
  function Insert<F>(files: map<int, F>, fd: int, f: F): map<int, F> {
    if fd in files then files else files[fd := f]
  }

  function Opened<F>(t: Table<F>, fd: int, f: F): Table<F> {
    Table(Insert(t.files, fd, f), fd + 1, Validates(t))
  }

  function Closed<F>(t: Table<F>, fd: int): Table<F> {
    if fd !in t.files then t
    else t.(files := t.files - {fd}, validate := t.validate && t.files - {fd} != map[])
  }

  /** One call: `r` is its result, with 0 and 1 for remove's bool and -1 for EBADF. */
  ghost predicate Next<F>(t: Table<F>, op: Op<F>, r: int, u: Table<F>) {
    match op
    case Add(f) => Allocates(t, r) && u == Opened(t, r, f)
    case Remove(fd) => r == (if fd in t.files then 1 else 0) && u == Closed(t, fd)
    case Dup(oldfd) =>
      if oldfd in t.files then Allocates(t, r) && u == Opened(t, r, t.files[oldfd]) else r == -1 && u == t
    case Dup2(oldfd, newfd) =>
      if oldfd !in t.files then r == -1 && u == t
      else if oldfd == newfd then r == newfd && u == t
      else
        var c := Closed(t, newfd);
        && r == newfd
        && u == Table(c.files[newfd := t.files[oldfd]], c.next,
                      c.validate || (c.next < newfd && newfd !in {0, 1, 2}))
  }

  // ----- descriptors are fresh -----

  /** Descriptors in use are behind the counter, unless they will be checked. */
  ghost predicate Behind<F>(t: Table<F>) {
    && START_FD <= t.next <= INT_MAX
    && (!Validates(t) ==> forall fd :: fd in t.files ==> fd < t.next)
  }

  function Initial<F>(): Table<F> {
    Table(map[], START_FD, false)
  }

  /** The one call that breaks it: dup2 onto the very descriptor that the counter will hand out next. */
  predicate Collides<F(==)>(t: Table<F>, op: Op<F>) {
    && op.Dup2? && op.oldfd in t.files && op.oldfd != op.newfd
    && op.newfd == t.next && !Validates(t)
  }

  /** Every call but that one keeps descriptors behind the counter. */
  lemma Kept<F>(t: Table<F>, op: Op<F>, r: int, u: Table<F>)
    requires Behind(t) && Next(t, op, r, u)
    ensures Behind(u) <==> !Collides(t, op)
  {
    if op.Dup2? && op.oldfd in t.files && op.oldfd != op.newfd {
      KeptByDup2(t, op.oldfd, op.newfd, r, u);
    }
  }

  lemma KeptByDup2<F>(t: Table<F>, oldfd: int, newfd: int, r: int, u: Table<F>)
    requires Behind(t) && Next(t, Dup2(oldfd, newfd), r, u) && oldfd in t.files && oldfd != newfd
    ensures Behind(u) <==> !Collides(t, Dup2(oldfd, newfd))
  {
    assert oldfd in t.files - {newfd};
    assert u.validate == (t.validate || (t.next < newfd && newfd !in {0, 1, 2}));
    assert newfd in u.files;
  }

  /** In any state an allocation is fresh exactly when it validates or the counter's value is unused. */
  lemma FreshExactly<F>(t: Table<F>, fd: int)
    requires Allocates(t, fd)
    ensures fd !in t.files <==> Validates(t) || t.next !in t.files
  {
  }

  /** A run of calls, with their results. */
  ghost predicate Run<F>(tables: seq<Table<F>>, ops: seq<Op<F>>, results: seq<int>) {
    && |tables| == |ops| + 1 && |results| == |ops|
    && forall i :: 0 <= i < |ops| ==> Next(tables[i], ops[i], results[i], tables[i + 1])
  }

  lemma {:induction false} BehindThroughout<F>(tables: seq<Table<F>>, ops: seq<Op<F>>, results: seq<int>, n: nat)
    requires Run(tables, ops, results) && Behind(tables[0]) && n < |tables|
    requires forall i :: 0 <= i < n ==> !Collides(tables[i], ops[i])
    ensures Behind(tables[n])
  {
    if n > 0 {
      BehindThroughout(tables, ops, results, n - 1);
      Kept(tables[n - 1], ops[n - 1], results[n - 1], tables[n]);
    }
  }

  /**
   * In every run of add, remove, dup and dup2 without a colliding dup2, across wrap-around, every descriptor
   * that add or dup returns was unused, and from then on it stands for the file that was opened.
   */
  lemma FreshThroughout<F>(tables: seq<Table<F>>, ops: seq<Op<F>>, results: seq<int>, n: nat)
    requires Run(tables, ops, results) && tables[0] == Initial() && n < |ops|
    requires forall i :: 0 <= i < n ==> !Collides(tables[i], ops[i])
    requires ops[n].Add? || (ops[n].Dup? && ops[n].oldfd in tables[n].files)
    ensures results[n] !in tables[n].files
    ensures tables[n + 1].files ==
      tables[n].files[results[n] := if ops[n].Add? then ops[n].file else tables[n].files[ops[n].oldfd]]
  {
    BehindThroughout(tables, ops, results, n);
    assert Next(tables[n], ops[n], results[n], tables[n + 1]);
    FreshExactly(tables[n], results[n]);
  }

  /** The exception is exact: after a dup2, the next add is fresh if and only if the dup2 did not collide. */
  lemma CollisionExactly<F>(t: Table<F>, op: Op<F>, r: int, u: Table<F>, f: F, fd: int, v: Table<F>)
    requires Behind(t) && op.Dup2? && Next(t, op, r, u) && Next(u, Add(f), fd, v)
    ensures fd !in u.files <==> !Collides(t, op)
    ensures Collides(t, op) ==> fd == op.newfd && v.files == u.files
  {
    Kept(t, op, r, u);
    FreshExactly(u, fd);
  }

  /** A run in which it happens: the second file is lost, its descriptor stands for the first. */
  lemma CollidingRun<F>(f: F, g: F) returns (tables: seq<Table<F>>, ops: seq<Op<F>>, results: seq<int>)
    ensures Run(tables, ops, results) && tables[0] == Initial()
    ensures ops == [Add(f), Dup2(10000, 10001), Add(g)] && results == [10000, 10001, 10001]
    ensures tables[3].files == map[10000 := f, 10001 := f]
  {
    ops, results := [Add(f), Dup2(10000, 10001), Add(g)], [10000, 10001, 10001];
    var one := Table(map[10000 := f], 10001, false);
    var two := Table(map[10000 := f, 10001 := f], 10001, false);
    tables := [Initial(), one, two, two.(next := 10002)];
    assert Next(Initial(), ops[0], 10000, one);
    assert one.files[10001 := f] == two.files;
    assert Next(one, ops[1], 10001, two);
    assert Next(two, ops[2], 10001, two.(next := 10002));
  }

  // ----- what a descriptor stands for -----

  ghost predicate StandsFor<F>(t: Table<F>, fd: int, f: F) {
    fd in t.files && t.files[fd] == f
  }

  /** The call makes `fd` stand for `f`: it is an add or dup that returned it while it was unused, or a dup2 onto it. */
  ghost predicate Opens<F>(t: Table<F>, op: Op<F>, r: int, fd: int, f: F) {
    match op
    case Add(g) => r == fd && fd !in t.files && g == f
    case Dup(oldfd) => r == fd && fd !in t.files && StandsFor(t, oldfd, f)
    case Dup2(oldfd, newfd) => newfd == fd && oldfd != newfd && StandsFor(t, oldfd, f)
    case Remove(_) => false
  }

  /** The call opens `fd`, for whatever file, or is a successful remove of it. */
  ghost predicate Concerns<F>(t: Table<F>, op: Op<F>, r: int, fd: int) {
    match op
    case Add(_) => r == fd && fd !in t.files
    case Dup(oldfd) => r == fd && fd !in t.files && oldfd in t.files
    case Dup2(oldfd, newfd) => newfd == fd && oldfd != newfd && oldfd in t.files
    case Remove(gone) => gone == fd && r == 1
  }

  /** One call changes what the descriptors it concerns stand for, and nothing else. */
  lemma StandsAfter<F>(t: Table<F>, op: Op<F>, r: int, u: Table<F>, fd: int, f: F)
    requires Next(t, op, r, u)
    ensures StandsFor(u, fd, f) <==> Opens(t, op, r, fd, f) || (StandsFor(t, fd, f) && !Concerns(t, op, r, fd))
    ensures op.Remove? ==> u.files == t.files - {op.fd} && (r == 1 <==> op.fd in t.files)
  {
  }

  /** Call `j` opened `fd` for `f`, and no call between it and the n-th concerned `fd`. */
  ghost predicate LastOpened<F>(tables: seq<Table<F>>, ops: seq<Op<F>>, results: seq<int>, j: nat, n: nat, fd: int,
                                f: F)
    requires |tables| == |ops| + 1 && |results| == |ops| && n < |tables|
  {
    j < n && Opens(tables[j], ops[j], results[j], fd, f) &&
    forall i :: j < i < n ==> !Concerns(tables[i], ops[i], results[i], fd)
  }

  /** Over every run, a descriptor is open and stands for a file exactly when the last call that concerned it opened
      it for that file. */
  lemma {:induction false} StandsExactly<F>(tables: seq<Table<F>>, ops: seq<Op<F>>, results: seq<int>, n: nat,
                                            fd: int, f: F)
    requires Run(tables, ops, results) && tables[0] == Initial() && n < |tables|
    ensures StandsFor(tables[n], fd, f) <==> exists j: nat :: LastOpened(tables, ops, results, j, n, fd, f)
  {
    if n > 0 {
      StandsExactly(tables, ops, results, n - 1, fd, f);
      StandsAfter(tables[n - 1], ops[n - 1], results[n - 1], tables[n], fd, f);
      if StandsFor(tables[n], fd, f) {
        if Opens(tables[n - 1], ops[n - 1], results[n - 1], fd, f) {
          assert LastOpened(tables, ops, results, n - 1, n, fd, f);
        } else {
          var j: nat :| LastOpened(tables, ops, results, j, n - 1, fd, f);
          assert LastOpened(tables, ops, results, j, n, fd, f);
        }
      }
      if j: nat :| LastOpened(tables, ops, results, j, n, fd, f) {
        if j < n - 1 {
          assert LastOpened(tables, ops, results, j, n - 1, fd, f);
        }
      }
    }
  }

  /** A descriptor that a successful remove closed is not open until a call opens it again. */
  lemma ClosedUntilOpened<F>(tables: seq<Table<F>>, ops: seq<Op<F>>, results: seq<int>, i: nat, n: nat, fd: int)
    requires Run(tables, ops, results) && tables[0] == Initial() && i < n < |tables|
    requires ops[i] == Remove(fd) && results[i] == 1
    requires forall j :: i < j < n ==> !Concerns(tables[j], ops[j], results[j], fd)
    ensures fd !in tables[n].files
  {
    if fd in tables[n].files {
      StandsExactly(tables, ops, results, n, fd, tables[n].files[fd]);
      var j: nat :| LastOpened(tables, ops, results, j, n, fd, tables[n].files[fd]);
      assert Concerns(tables[i], ops[i], results[i], fd);
      assert false;
    }
  }

  // ----- when descriptors are checked -----

  /** The call makes later descriptors be checked: it draws one with the counter at its end, or is a dup2 ahead of the
      counter, which has just passed it by. */
  ghost predicate Warns<F>(t: Table<F>, op: Op<F>) {
    match op
    case Add(_) => t.next == 2147483647
    case Dup(oldfd) => oldfd in t.files && t.next == 2147483647
    case Dup2(oldfd, newfd) => oldfd in t.files && oldfd != newfd && t.next < newfd && newfd > 2
    case Remove(_) => false
  }

  /** The call closes the last open descriptor. */
  ghost predicate Empties<F>(t: Table<F>, op: Op<F>) {
    op.Remove? && t.files.Keys == {op.fd}
  }

  lemma EmptyWithout<F>(files: map<int, F>, fd: int)
    requires fd in files
    ensures files - {fd} == map[] <==> files.Keys == {fd}
  {
    if files - {fd} == map[] {
      forall other ensures other in files <==> other == fd {
        assert other in files - {fd} <==> other in files && other != fd;
      }
    }
  }

  /** One call, on the flag and on the counter. */
  lemma FlagAfter<F>(t: Table<F>, op: Op<F>, r: int, u: Table<F>)
    requires Next(t, op, r, u) && t.next >= START_FD
    ensures u.validate <==> Warns(t, op) || (t.validate && !Empties(t, op))
    ensures u.next == if op.Add? || (op.Dup? && op.oldfd in t.files) then r + 1 else t.next
  {
    if op.Remove? && op.fd in t.files {
      EmptyWithout(t.files, op.fd);
    }
    if op.Dup2? && op.oldfd in t.files && op.oldfd != op.newfd {
      assert op.oldfd in t.files - {op.newfd};
    }
  }

  ghost predicate LastWarned<F>(tables: seq<Table<F>>, ops: seq<Op<F>>, j: nat, n: nat)
    requires |tables| == |ops| + 1 && n < |tables|
  {
    j < n && Warns(tables[j], ops[j]) && forall i :: j < i < n ==> !Empties(tables[i], ops[i])
  }

  /** Over every run, descriptors are checked exactly when some call gave reason to and the table has not been empty
      since. */
  lemma {:induction false} FlagExactly<F>(tables: seq<Table<F>>, ops: seq<Op<F>>, results: seq<int>, n: nat)
    requires Run(tables, ops, results) && tables[0] == Initial() && n < |tables|
    ensures tables[n].validate <==> exists j: nat :: LastWarned(tables, ops, j, n)
    ensures tables[n].next >= START_FD
  {
    if n > 0 {
      FlagExactly(tables, ops, results, n - 1);
      FlagAfter(tables[n - 1], ops[n - 1], results[n - 1], tables[n]);
      if tables[n].validate {
        if Warns(tables[n - 1], ops[n - 1]) {
          assert LastWarned(tables, ops, n - 1, n);
        } else {
          var j: nat :| LastWarned(tables, ops, j, n - 1);
          assert LastWarned(tables, ops, j, n);
        }
      }
      if j: nat :| LastWarned(tables, ops, j, n) {
        if j < n - 1 {
          assert LastWarned(tables, ops, j, n - 1);
        }
      }
    }
  }

  // ----- the table as it is built -----

  class FileMap<F> {
    var files: map<int, F>
    var fdIdx: int
    var fdValidationNeeded: bool

    ghost function View(): Table<F>
      reads this
    {
      Table(files, fdIdx, fdValidationNeeded)
    }

    constructor ()
      ensures View() == Initial()
    {
      files, fdIdx, fdValidationNeeded := map[], START_FD, false;
    }

    method GenerateFdIdx() returns (fd: int)
      requires START_FD <= fdIdx <= INT_MAX
      modifies `fdIdx, `fdValidationNeeded
      ensures fd == First(old(View())) && fdIdx == fd + 1 <= INT_MAX
      ensures fdValidationNeeded == Validates(old(View()))
    {
      if fdIdx == INT_MAX {
        fdIdx := START_FD;
        fdValidationNeeded := true;
      }
      fd := fdIdx;
      fdIdx := fdIdx + 1;
    }

    /** The retry loop ends whenever some descriptor is unused. */
    method SafeGenerateFdIdx(ghost unused: int) returns (fd: int)
      requires START_FD <= fdIdx <= INT_MAX
      requires Validates(View()) ==> START_FD <= unused < INT_MAX && unused !in files
      modifies `fdIdx, `fdValidationNeeded
      ensures Allocates(old(View()), fd) && fdIdx == fd + 1
      ensures fdValidationNeeded == Validates(old(View()))
    {
      ghost var start := First(View());
      fd := GenerateFdIdx();
      if fdValidationNeeded {
        while fd in files
          invariant START_FD <= fd < INT_MAX && fdIdx == fd + 1 && fdValidationNeeded
          invariant AllUsed(files, start, fd)
          decreases if fd <= unused then unused - fd else unused - fd + INT_MAX - START_FD
        {
          fd := GenerateFdIdx();
        }
      }
    }

    method Add(f: F, ghost unused: int) returns (fd: int)
      requires START_FD <= fdIdx <= INT_MAX
      requires Validates(View()) ==> START_FD <= unused < INT_MAX && unused !in files
      modifies this
      ensures Next(old(View()), Op.Add(f), fd, View())
    {
      fd := SafeGenerateFdIdx(unused);
      files := Insert(files, fd, f);
    }

    method Remove(fd: int) returns (r: bool)
      modifies this
      ensures Next(old(View()), Op.Remove(fd), if r then 1 else 0, View())
      ensures files == old(files) - {fd} && (r <==> fd in old(files))
    {
      if fd !in files {
        return false;
      }
      files := files - {fd};
      if fdValidationNeeded && files == map[] {
        fdValidationNeeded := false;
      }
      return true;
    }

    method Dup(oldfd: int, ghost unused: int) returns (r: int)
      requires START_FD <= fdIdx <= INT_MAX
      requires oldfd in files && Validates(View()) ==> START_FD <= unused < INT_MAX && unused !in files
      modifies this
      ensures Next(old(View()), Op.Dup(oldfd), r, View())
    {
      if oldfd !in files {
        return -1;
      }
      var f := files[oldfd];
      r := SafeGenerateFdIdx(unused);
      files := Insert(files, r, f);
    }

    method Dup2(oldfd: int, newfd: int) returns (r: int)
      modifies this
      ensures Next(old(View()), Op.Dup2(oldfd, newfd), r, View())
    {
      if oldfd !in files {
        return -1;
      }
      var f := files[oldfd];
      if oldfd == newfd {
        return newfd;
      }
      if newfd in files {
        var removed := Remove(newfd);
      }
      if fdIdx < newfd && newfd != 0 && newfd != 1 && newfd != 2 {
        fdValidationNeeded := true;
      }
      files := Insert(files, newfd, f);
      return newfd;
    }
  }

  /** The candidates of the retry loop, one after the other. */
  function Candidate(start: int, n: nat): (fd: int)
    requires START_FD <= start < INT_MAX
    ensures START_FD <= fd < INT_MAX
    decreases n
  {
    if n == 0 then start
    else
      var fd := Candidate(start, n - 1);
      if fd + 1 == INT_MAX then START_FD else fd + 1
  }

  lemma {:induction false} CandidateReaches(start: int, fd: int)
    requires START_FD <= start < INT_MAX && START_FD <= fd < INT_MAX
    ensures exists n: nat :: Candidate(start, n) == fd
  {
    var n: nat, c := 0, start;
    while c != fd
      invariant c == Candidate(start, n) && START_FD <= c < INT_MAX
      decreases if c <= fd then fd - c else fd - c + INT_MAX - START_FD
    {
      n, c := n + 1, if c + 1 == INT_MAX then START_FD else c + 1;
    }
    assert Candidate(start, n) == fd;
  }

  /** The retry loop ends if and only if some descriptor is unused. */
  lemma RetryEndsExactly<F>(files: map<int, F>, start: int)
    requires START_FD <= start < INT_MAX
    ensures (exists n: nat :: Candidate(start, n) !in files) <==> exists fd :: START_FD <= fd < INT_MAX && fd !in files
  {
    if fd :| START_FD <= fd < INT_MAX && fd !in files {
      CandidateReaches(start, fd);
    }
  }
}
