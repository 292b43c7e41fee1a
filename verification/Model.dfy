/** Values shared by every component: the stored record, results, and the request context. */
module Model {

  datatype URL = URL(uuid: string, short: string, original: string, userID: string, deletedFlag: bool)

  datatype Error = NotFound | IsDeleted | Canceled | EmptyBatch | AuthorizationMissing | AuthorizationInvalid

  datatype Option<+T> = None | Some(value: T)

  datatype Result<+T> = Ok(value: T) | Err(error: Error)

  /** When a context reports that it is done: never, or after a number of further polls.
      Quantifying over deadlines covers every moment at which a caller may cancel. */
  datatype Deadline = Never | After(polls: nat) {

    predicate Done() {
      this == After(0)
    }

    function Next(): Deadline {
      if this.After? && 0 < polls then After(polls - 1) else this
    }

    /** The deadline seen after `n` polls. */
    function Skip(n: nat): (d: Deadline)
      ensures Done() ==> d == this
      ensures this.After? ==> d == After(if n < polls then polls - n else 0)
      ensures this.Never? ==> d.Never?
      decreases n
    {
      if n == 0 then this else Next().Skip(n - 1)
    }
  }

  lemma {:induction false} SkipStep(d: Deadline, n: nat)
    ensures d.Skip(n + 1) == d.Skip(n).Next()
    decreases n
  {
    if 0 < n {
      SkipStep(d.Next(), n - 1);
    }
  }

  class Context {
    var deadline: Deadline

    constructor (deadline: Deadline)
      ensures this.deadline == deadline
    {
      this.deadline := deadline;
    }

    /** One `select` on `ctx.Done()`. */
    method Poll() returns (done: bool)
      modifies this
      ensures done == old(deadline).Done()
      ensures deadline == old(deadline).Next()
    {
      done := deadline.Done();
      deadline := deadline.Next();
    }
  }

  lemma SmallerSet(a: set<string>, b: set<string>)
    requires a <= b
    ensures |a| <= |b|
  {
    assert b == a + (b - a);
  }

  // ---- Texts and separators ----

  lemma SeparatorsBefore(sep: char, a: string, m: string)
    requires sep !in m
    ensures var text := a + [sep] + m;
      text[|a|] == sep && forall k :: |a| < k < |text| ==> text[k] != sep
  {
    assert forall k :: |a| < k < |a + [sep] + m| ==> (a + [sep] + m)[k] == m[k - |a| - 1];
  }

  /** The last separator of a text splits it. */
  lemma LastSeparator(sep: char, a: string, m: string, b: string, n: string)
    requires a + [sep] + m == b + [sep] + n && sep !in m && sep !in n
    ensures a == b && m == n
  {
    var left, right := a + [sep] + m, b + [sep] + n;
    SeparatorsBefore(sep, a, m);
    SeparatorsBefore(sep, b, n);
    assert left[|b|] == sep && right[|a|] == sep;
    assert left[..|a|] == a && right[..|b|] == b;
    assert left[|a| + 1..] == m && right[|b| + 1..] == n;
  }
}
