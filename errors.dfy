/**
 * The "not found" exceptions of feast/errors.py: their class hierarchy and
 * the message each constructor passes to `Exception.__init__`.
 */
module Errors {
  import opened Wrappers

  /** The exception classes declared in errors.py, plus Python's `Exception`. */
  datatype ExceptionClass =
    | PythonException
    | FeastObjectNotFoundException
    | EntityNotFoundException
    | FeatureViewNotFoundException
    | FeatureTableNotFoundException
    | FeatureBucketNotExist
    | FeatureBucketForbiddenAccess
    | FeastProviderLoginError

  /** Distance from `Exception` in the class hierarchy. */
  function Depth(c: ExceptionClass): nat
  {
    match c
    case PythonException => 0
    case FeastObjectNotFoundException => 1
    case FeastProviderLoginError => 1
    case _ => 2
  }

  /** The base class named in the `class C(Base):` line, if any. */
  function Superclass(c: ExceptionClass): (r: Option<ExceptionClass>)
    ensures r.Some? <==> c != PythonException
    ensures r.Some? ==> Depth(r.value) + 1 == Depth(c)
  {
    match c
    case PythonException => None
    case FeastObjectNotFoundException => Some(PythonException)
    case FeastProviderLoginError => Some(PythonException)
    case _ => Some(FeastObjectNotFoundException)
  }

  /** `issubclass(c, d)`: d is c or one of its ancestors. */
  predicate IsSubclass(c: ExceptionClass, d: ExceptionClass)
    decreases Depth(c)
  {
    c == d || (Superclass(c).Some? && IsSubclass(Superclass(c).value, d))
  }

  /** One instance of a "not found" exception, with the constructor's arguments. */
  datatype NotFoundError =
    | EntityNotFound(name: string, project: Option<string>)
    | FeatureViewNotFound(name: string, project: Option<string>)
    | FeatureTableNotFound(name: string, project: Option<string>)
    | BucketNotExist(name: string, project: Option<string>)
    | BucketForbiddenAccess(name: string, project: Option<string>)

  /** The class an instance belongs to; every one of them is a FeastObjectNotFoundException. */
  function ClassOf(e: NotFoundError): (c: ExceptionClass)
    ensures IsSubclass(c, FeastObjectNotFoundException) && c != FeastObjectNotFoundException
    ensures IsSubclass(c, PythonException)
  {
    match e
    case EntityNotFound(_, _) => EntityNotFoundException
    case FeatureViewNotFound(_, _) => FeatureViewNotFoundException
    case FeatureTableNotFound(_, _) => FeatureTableNotFoundException
    case BucketNotExist(_, _) => FeatureBucketNotExist
    case BucketForbiddenAccess(_, _) => FeatureBucketForbiddenAccess
  }

  /** The login error sits beside, not below, FeastObjectNotFoundException. */
  lemma ProviderLoginErrorIsNotNotFound()
    ensures IsSubclass(FeastProviderLoginError, PythonException)
    ensures !IsSubclass(FeastProviderLoginError, FeastObjectNotFoundException)
    ensures !IsSubclass(FeastObjectNotFoundException, FeastProviderLoginError)
  {
  }

  /** The message each constructor builds, one branch per `if project:`. */
  function Message(e: NotFoundError): string
  {
    match e
    case EntityNotFound(name, project) =>
      if IsTruthy(project) then "Entity " + name + " does not exist in project " + project.value
      else "Entity " + name + " does not exist"
    case FeatureViewNotFound(name, project) =>
      if IsTruthy(project) then "Feature view " + name + " does not exist in project " + project.value
      else "Feature view " + name + " does not exist"
    case FeatureTableNotFound(name, project) =>
      if IsTruthy(project) then "Feature table " + name + " does not exist in project " + project.value
      else "Feature table " + name + " does not exist"
    case BucketNotExist(bucket, project) =>
      if IsTruthy(project) then "Feature bucket " + bucket + " does not exist in project " + project.value
      else "Feature bucket " + bucket + " does not exist"
    case BucketForbiddenAccess(bucket, project) =>
      if IsTruthy(project) then "Private Registry Bucket " + bucket + " forbidden Access in project " + project.value
      else "Private Registry Bucket " + bucket + " forbidden Access"
  }

  const ProjectMarker: string := " in project "

  /** The message the same constructor gives without a project. */
  function WithoutProject(e: NotFoundError): NotFoundError
  {
    e.(project := None)
  }

  /** The message without a project depends on the class and the name only. */
  lemma MessageWithoutProject(e: NotFoundError)
    requires !IsTruthy(e.project)
    ensures Message(e) == Message(WithoutProject(e))
    ensures Message(e) == match e
      case EntityNotFound(n, _) => "Entity " + n + " does not exist"
      case FeatureViewNotFound(n, _) => "Feature view " + n + " does not exist"
      case FeatureTableNotFound(n, _) => "Feature table " + n + " does not exist"
      case BucketNotExist(b, _) => "Feature bucket " + b + " does not exist"
      case BucketForbiddenAccess(b, _) => "Private Registry Bucket " + b + " forbidden Access"
  {
  }

  /**
   * In every class the message with a project is the message without one
   * followed by " in project <project>"; so the latter is a strict prefix.
   */
  lemma MessageWithProject(e: NotFoundError)
    requires IsTruthy(e.project)
    ensures Message(e) == Message(WithoutProject(e)) + ProjectMarker + e.project.value
    ensures |Message(WithoutProject(e))| < |Message(e)|
    ensures Message(e)[..|Message(WithoutProject(e))|] == Message(WithoutProject(e))
  {
    var base := Message(WithoutProject(e));
    var p := e.project.value;
    var subject := match e
      case EntityNotFound(_, _) => "Entity "
      case FeatureViewNotFound(_, _) => "Feature view "
      case FeatureTableNotFound(_, _) => "Feature table "
      case BucketNotExist(_, _) => "Feature bucket "
      case BucketForbiddenAccess(_, _) => "Private Registry Bucket ";
    var verb := if e.BucketForbiddenAccess? then " forbidden Access" else " does not exist";
    assert base == subject + e.name + verb;
    assert Message(e) == subject + e.name + (verb + ProjectMarker) + p by {
      if e.BucketForbiddenAccess? { MarkerAfterForbidden(); } else { MarkerAfterDoesNotExist(); }
    }
    Regroup(subject, e.name, verb, ProjectMarker, p);
    ConcatPrefix(base, ProjectMarker + p);
  }

  lemma MarkerAfterDoesNotExist()
    ensures " does not exist in project " == " does not exist" + ProjectMarker
  {
  }

  lemma MarkerAfterForbidden()
    ensures " forbidden Access in project " == " forbidden Access" + ProjectMarker
  {
  }

  lemma Regroup(a: string, n: string, v: string, m: string, p: string)
    ensures a + n + (v + m) + p == (a + n + v) + m + p
  {
  }

  lemma ConcatPrefix(a: string, b: string)
    ensures (a + b)[..|a|] == a && |a + b| == |a| + |b|
  {
  }

  /**
   * Reads the project back out of a message of the class and name of `e`:
   * the text after "<message without project> in project ", if any.
   */
  function ProjectIn(e: NotFoundError, msg: string): Option<string>
  {
    var prefix := Message(WithoutProject(e)) + ProjectMarker;
    if |prefix| < |msg| && msg[..|prefix|] == prefix then Some(msg[|prefix|..]) else None
  }

  /** A message names a project exactly when the constructor was given a truthy one. */
  lemma {:induction false} ProjectRoundTrip(e: NotFoundError)
    ensures ProjectIn(e, Message(e)) == if IsTruthy(e.project) then e.project else None
  {
    var base := Message(WithoutProject(e));
    var prefix := base + ProjectMarker;
    if IsTruthy(e.project) {
      MessageWithProject(e);
      assert Message(e) == prefix + e.project.value;
      assert Message(e)[..|prefix|] == prefix;
      assert Message(e)[|prefix|..] == e.project.value;
    } else {
      MessageWithoutProject(e);
      assert |Message(e)| < |prefix|;
    }
  }

  /**
   * Two errors of the same class and name have the same message exactly when
   * their projects agree up to truthiness (None and "" say the same).
   */
  lemma MessageDeterminesProject(e1: NotFoundError, e2: NotFoundError)
    requires WithoutProject(e1) == WithoutProject(e2)
    ensures Message(e1) == Message(e2) <==>
      (IsTruthy(e1.project) == IsTruthy(e2.project) &&
       (IsTruthy(e1.project) ==> e1.project == e2.project))
  {
    ProjectRoundTrip(e1);
    ProjectRoundTrip(e2);
    if !IsTruthy(e1.project) { MessageWithoutProject(e1); }
    else { MessageWithProject(e1); }
    if !IsTruthy(e2.project) { MessageWithoutProject(e2); }
    else { MessageWithProject(e2); }
  }
}
