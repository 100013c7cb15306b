/** Recording one step: materials are recorded, then the command runs, then
    products are recorded on the file system the command left, and the link
    is built from the three. Each stage that fails ends the call with its own
    error, and no later stage runs. */
module Runlib {
  import opened Wrappers
  import opened Host
  import opened Artifacts
  import opened Command

  datatype Link = Link(name: string, materials: Inventory, byproducts: map<string, string>, products: Inventory)

  datatype Stage = MaterialsStage | CommandStage | ProductsStage | BuildStage

  const ALL_STAGES: seq<Stage> := [MaterialsStage, CommandStage, ProductsStage, BuildStage]

  /** The outcome of recording a step; `build` stands for the link metadata
      builder, which may refuse the assembled link with an error of its own.
      An empty argument list is only a caller error when the materials are
      recorded: the command, which would panic on it, never runs otherwise. */
  function StepOutcome(name: string, materialPaths: seq<string>, productPaths: seq<string>, args: seq<string>,
                       fs: FileSystem, env: Env, build: Link -> Option<Error>): (r: Result<Link, Error>)
    requires |args| > 0 || RecordSpec(fs, materialPaths, env).Failure?
    ensures RecordSpec(fs, materialPaths, env).Failure? ==>
      r == Failure(RecordSpec(fs, materialPaths, env).error)
    ensures RecordSpec(fs, materialPaths, env).Success? && CommandOutcome(args, fs, env).Failure? ==>
      r == Failure(CommandOutcome(args, fs, env).error)
    ensures RecordSpec(fs, materialPaths, env).Success? && CommandOutcome(args, fs, env).Success? &&
            RecordSpec(FsAfter(args, fs, env), productPaths, env).Failure? ==>
      r == Failure(RecordSpec(FsAfter(args, fs, env), productPaths, env).error)
    ensures r.Success? ==>
      r.value.name == name &&
      RecordSpec(fs, materialPaths, env) == Success(r.value.materials) &&
      CommandOutcome(args, fs, env) == Success(r.value.byproducts) &&
      RecordSpec(FsAfter(args, fs, env), productPaths, env) == Success(r.value.products) &&
      build(r.value).None?
    ensures r.Failure? && RecordSpec(fs, materialPaths, env).Success? && CommandOutcome(args, fs, env).Success? &&
            RecordSpec(FsAfter(args, fs, env), productPaths, env).Success? ==>
      var link := Link(name, RecordSpec(fs, materialPaths, env).value, CommandOutcome(args, fs, env).value,
                       RecordSpec(FsAfter(args, fs, env), productPaths, env).value);
      build(link) == Some(r.error)
  {
    match RecordSpec(fs, materialPaths, env)
    case Failure(err) => Failure(err)
    case Success(materials) =>
      match CommandOutcome(args, fs, env)
      case Failure(err) => Failure(err)
      case Success(byproducts) =>
        match RecordSpec(FsAfter(args, fs, env), productPaths, env)
        case Failure(err) => Failure(err)
        case Success(products) =>
          var link := Link(name, materials, byproducts, products);
          match build(link)
          case Some(err) => Failure(err)
          case None => Success(link)
  }

  /** Records the step; `stages` lists the stages that ran, in order. */
  method InTotoRun(name: string, materialPaths: seq<string>, productPaths: seq<string>, args: seq<string>,
                   fs: FileSystem, env: Env, build: Link -> Option<Error>)
    returns (r: Result<Link, Error>, ghost stages: seq<Stage>)
    requires |args| > 0 || RecordSpec(fs, materialPaths, env).Failure?
    ensures r == StepOutcome(name, materialPaths, productPaths, args, fs, env, build)
    ensures 1 <= |stages| <= 4 && stages == ALL_STAGES[..|stages|]
    ensures |stages| == 1 <==> RecordSpec(fs, materialPaths, env).Failure?
    ensures |stages| == 2 <==> RecordSpec(fs, materialPaths, env).Success? && CommandOutcome(args, fs, env).Failure?
    ensures |stages| == 3 <==>
      RecordSpec(fs, materialPaths, env).Success? && CommandOutcome(args, fs, env).Success? &&
      RecordSpec(FsAfter(args, fs, env), productPaths, env).Failure?
    ensures r.Success? ==> |stages| == 4
  {
    stages := [MaterialsStage];
    var materials := RecordArtifacts(materialPaths, fs, env);
    if materials.Failure? {
      return Failure(materials.error), stages;
    }

    stages := stages + [CommandStage];
    var byproducts, after := RunCommand(args, fs, env);
    if byproducts.Failure? {
      return Failure(byproducts.error), stages;
    }

    stages := stages + [ProductsStage];
    var products := RecordArtifacts(productPaths, after, env);
    if products.Failure? {
      return Failure(products.error), stages;
    }

    stages := stages + [BuildStage];
    var link := Link(name, materials.value, byproducts.value, products.value);
    match build(link)
    case Some(err) =>
      return Failure(err), stages;
    case None =>
      return Success(link), stages;
  }

  /** A command that leaves the file system as it found it, recorded with the
      same roots before and after, gives equal materials and products. */
  lemma UnchangedFileSystemGivesEqualInventories(name: string, paths: seq<string>, args: seq<string>,
                                                 fs: FileSystem, env: Env, build: Link -> Option<Error>)
    requires |args| > 0
    requires FsAfter(args, fs, env) == fs
    requires StepOutcome(name, paths, paths, args, fs, env, build).Success?
    ensures StepOutcome(name, paths, paths, args, fs, env, build).value.materials ==
            StepOutcome(name, paths, paths, args, fs, env, build).value.products
  {
  }
}
