/**
 * `Util.GetBuilderFromExecuteArgument`: choosing the builder asset named on
 * the command line. The asset search and the active build target are
 * parameters: `find` stands for the first builder asset whose search matches
 * the name, `targetOf` for a builder's actual build target.
 */
module BuilderSelection {
  import opened Wrappers
  import opened NetString
  import opened ExecuteArguments

  /** `-builder <asset name>`. */
  const OptBuilder: string := "-builder"
  /** `-bvrbuildtarget <name>`, as passed by Unity Cloud Build. */
  const OptCloudBuilder: string := "-bvrbuildtarget"

  /** The three exceptions the selection can throw. */
  datatype SelectionError<T> =
    | MissingBuilderOption      // neither option was given
    | BuilderNotFound(name: string)
    | WrongBuildTarget(activeTarget: T)

  /**
   * The builder name: the cloud-build option wins, with each `'-'` read as a
   * space; otherwise the `-builder` value as given; otherwise an error.
   */
  function BuilderName<T>(args: map<string, string>): (r: Result<string, SelectionError<T>>)
    ensures r.Success? <==> OptCloudBuilder in args || OptBuilder in args
    ensures r.Failure? ==> r.error == MissingBuilderOption
    ensures OptCloudBuilder in args ==>
              var v := args[OptCloudBuilder];
              && |r.value| == |v|
              && (forall i :: 0 <= i < |v| ==> r.value[i] == if v[i] == '-' then ' ' else v[i])
              && '-' !in r.value
    ensures OptCloudBuilder !in args && OptBuilder in args ==> r.value == args[OptBuilder]
  {
    if OptCloudBuilder in args then
      var v := args[OptCloudBuilder];
      ReplaceCharByChar(v, '-', ' ');
      ReplaceCharRemoves(v, '-', " ");
      Success(ReplaceAll(v, "-", " "))
    else if OptBuilder in args then
      Success(args[OptBuilder])
    else
      Failure(MissingBuilderOption)
  }

  /**
   * The builder to build with: the asset found for the selected name, which
   * must target the active build target.
   */
  function GetBuilderFromExecuteArgument<B, T(==)>(
    args: map<string, string>, find: string -> Option<B>, targetOf: B -> T, activeTarget: T)
    : (r: Result<B, SelectionError<T>>)
    ensures r.Success? <==>
              && BuilderName<T>(args).Success?
              && find(BuilderName<T>(args).value).Some?
              && targetOf(find(BuilderName<T>(args).value).value) == activeTarget
    ensures r.Success? ==> r.value == find(BuilderName<T>(args).value).value && targetOf(r.value) == activeTarget
    ensures BuilderName<T>(args).Failure? ==> r == Failure(MissingBuilderOption)
    ensures BuilderName<T>(args).Success? && find(BuilderName<T>(args).value).None? ==>
              r == Failure(BuilderNotFound(BuilderName<T>(args).value))
    ensures BuilderName<T>(args).Success? && find(BuilderName<T>(args).value).Some?
            && targetOf(find(BuilderName<T>(args).value).value) != activeTarget ==>
              r == Failure(WrongBuildTarget(activeTarget))
  {
    match BuilderName<T>(args)
    case Failure(e) => Failure(e)
    case Success(name) =>
      match find(name)
      case None => Failure(BuilderNotFound(name))
      case Some(builder) =>
        if targetOf(builder) != activeTarget then Failure(WrongBuildTarget(activeTarget))
        else Success(builder)
  }

  /** The cloud-build option decides the name even when `-builder` is also given. */
  lemma CloudBuilderWins<T>(args: map<string, string>, other: string)
    requires OptCloudBuilder in args
    ensures BuilderName<T>(args[OptBuilder := other]) == BuilderName<T>(args)
    ensures BuilderName<T>(args - {OptBuilder}) == BuilderName<T>(args)
  {
  }

  /**
   * On a command line that gives `-builder <name>` (and no later `-builder`
   * and no cloud-build option), the selected name is `<name>` itself.
   */
  lemma BuilderNameFromCommandLine<T>(a: seq<string>, name: string, b: seq<string>)
    requires !IsOption(name) && OptBuilder !in b
    requires OptCloudBuilder !in a + [OptBuilder, name] + b
    ensures BuilderName<T>(OptionTable(a + [OptBuilder, name] + b)) == Success(name)
  {
    OptionWithValue(a, OptBuilder, name, b);
  }

  /**
   * On a command line that gives the cloud-build option with a value, the
   * selected name is that value with every `'-'` read as a space.
   */
  lemma CloudBuilderNameFromCommandLine<T>(a: seq<string>, v: string, b: seq<string>)
    requires !IsOption(v) && OptCloudBuilder !in b
    ensures BuilderName<T>(OptionTable(a + [OptCloudBuilder, v] + b)) == Success(ReplaceAll(v, "-", " "))
  {
    OptionWithValue(a, OptCloudBuilder, v, b);
  }
}
