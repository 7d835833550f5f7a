/**
 * `meshgen.Parser`: the mesh generator's command line. Arguments are read in pairs from
 * even positions; a recognised flag consumes the argument after it, an unrecognised one
 * is skipped together with its partner, and a later pair overrides an earlier one.
 *
 * Java's `null` is `None`. `Integer.parseInt` and `Double.parseDouble` are parameters
 * (`Numbers`) that answer `None` where Java throws `NumberFormatException`.
 */
module MeshGenArgs {
  import opened Wrappers

  datatype Mode = Generate | Calculate

  datatype Options = Options(
    mode: Option<Mode>,
    shape: Option<string>,
    divisionsU: int,
    divisionsV: int,
    minorRadius: real,
    infile: Option<string>,
    outfile: Option<string>)

  /** A recognised flag in the last position has no value (`ArrayIndexOutOfBoundsException`). */
  datatype ArgError = MissingValue(flag: string) | BadNumber(text: string)

  datatype Numbers = Numbers(parseInt: string -> Option<int>, parseDouble: string -> Option<real>)

  /** `initializeDefaults`. */
  function Defaults(): (o: Options)
    ensures o.mode.None? && o.shape.None? && o.infile.None? && o.outfile.None?
    ensures o.divisionsU == 32 && o.divisionsV == 16 && o.minorRadius == 0.25
  {
    Options(None, None, 32, 16, 0.25, None, None)
  }

  /** The flags the parser acts on. */
  predicate Known(flag: string) {
    flag in {"-g", "-i", "-n", "-m", "-r", "-o"}
  }

  /** One recognised pair `flag value`. */
  function Apply(nums: Numbers, o: Options, flag: string, value: string): (r: Result<Options, ArgError>)
    requires Known(flag)
    ensures r.Failure? <==>
      (flag in {"-n", "-m"} && nums.parseInt(value).None?) || (flag == "-r" && nums.parseDouble(value).None?)
    ensures r.Failure? ==> r.error == BadNumber(value)
  {
    if flag == "-g" then Success(o.(mode := Some(Generate), shape := Some(value)))
    else if flag == "-i" then Success(o.(mode := Some(Calculate), infile := Some(value)))
    else if flag == "-n" then
      (match nums.parseInt(value)
       case Some(k) => Success(o.(divisionsU := k))
       case None => Failure(BadNumber(value)))
    else if flag == "-m" then
      (match nums.parseInt(value)
       case Some(k) => Success(o.(divisionsV := k))
       case None => Failure(BadNumber(value)))
    else if flag == "-r" then
      (match nums.parseDouble(value)
       case Some(x) => Success(o.(minorRadius := x))
       case None => Failure(BadNumber(value)))
    else Success(o.(outfile := Some(value)))
  }

  /** The loop `for (idx = 0; idx < args.length; idx += 2)`, on what is left of the arguments. */
  function Scan(nums: Numbers, o: Options, args: seq<string>): (r: Result<Options, ArgError>)
    ensures |args| == 0 ==> r == Success(o)
    decreases |args|
  {
    if |args| == 0 then Success(o)
    else if !Known(args[0]) then
      if |args| == 1 then Success(o) else Scan(nums, o, args[2..])
    else if |args| == 1 then Failure(MissingValue(args[0]))
    else
      match Apply(nums, o, args[0], args[1])
      case Failure(e) => Failure(e)
      case Success(o') => Scan(nums, o', args[2..])
  }

  /** `new Parser(args)`. */
  function Parse(nums: Numbers, args: seq<string>): (r: Result<Options, ArgError>)
    ensures |args| == 0 ==> r == Success(Defaults())
  {
    Scan(nums, Defaults(), args)
  }

  // ---------------------------------------------------------------- properties

  /**
   * The last pair, at an even position, whose flag is one of `flags`; a later pair hides
   * an earlier one.
   */
  function Final(args: seq<string>, flags: set<string>): (r: Option<(string, string)>)
    ensures r.Some? ==> r.value.0 in flags
    decreases |args|
  {
    if |args| < 2 then None
    else
      var later := Final(args[2..], flags);
      if later.Some? then later
      else if args[0] in flags then Some((args[0], args[1]))
      else None
  }

  /** The value of the last pair for `flag`, or `otherwise` when there is none. */
  function LastOr(args: seq<string>, flag: string, otherwise: Option<string>): Option<string> {
    match Final(args, {flag})
    case Some((_, v)) => Some(v)
    case None => otherwise
  }

  /**
   * Whatever the parser starts from, each field ends up as the last pair that sets it
   * says: the mode from the last `-g` or `-i`, the shape, input and output files from the
   * last `-g`, `-i` and `-o`, and the numbers from the last `-n`, `-m` and `-r`; a field
   * no pair sets keeps its value.
   */
  lemma {:induction false} ScanKeepsLast(nums: Numbers, o: Options, args: seq<string>)
    requires Scan(nums, o, args).Success?
    ensures var r := Scan(nums, o, args).value;
      && r.shape == LastOr(args, "-g", o.shape)
      && r.infile == LastOr(args, "-i", o.infile)
      && r.outfile == LastOr(args, "-o", o.outfile)
      && r.mode == (match Final(args, {"-g", "-i"})
                    case Some((f, _)) => Some(if f == "-g" then Generate else Calculate)
                    case None => o.mode)
      && (match Final(args, {"-n"})
          case Some((_, v)) => nums.parseInt(v) == Some(r.divisionsU)
          case None => r.divisionsU == o.divisionsU)
      && (match Final(args, {"-m"})
          case Some((_, v)) => nums.parseInt(v) == Some(r.divisionsV)
          case None => r.divisionsV == o.divisionsV)
      && (match Final(args, {"-r"})
          case Some((_, v)) => nums.parseDouble(v) == Some(r.minorRadius)
          case None => r.minorRadius == o.minorRadius)
    decreases |args|
  {
    if |args| >= 2 {
      var rest := args[2..];
      if !Known(args[0]) {
        ScanKeepsLast(nums, o, rest);
      } else {
        var o' := Apply(nums, o, args[0], args[1]).value;
        ScanKeepsLast(nums, o', rest);
      }
    }
  }

  /**
   * The parsed options: the defaults, overridden field by field by the last pair that sets
   * each field.
   */
  lemma ParseKeepsLast(nums: Numbers, args: seq<string>)
    requires Parse(nums, args).Success?
    ensures var r := Parse(nums, args).value;
      && r.shape == LastOr(args, "-g", None)
      && r.infile == LastOr(args, "-i", None)
      && r.outfile == LastOr(args, "-o", None)
      && (Final(args, {"-g", "-i"}).None? ==> r.mode.None?)
      && (Final(args, {"-n"}).None? ==> r.divisionsU == 32)
      && (Final(args, {"-m"}).None? ==> r.divisionsV == 16)
      && (Final(args, {"-r"}).None? ==> r.minorRadius == 0.25)
  {
    ScanKeepsLast(nums, Defaults(), args);
  }

  /** A `-g s` pair asks for generation of shape s; an `-i f` pair for normals of file f. */
  lemma GenerateAndCalculate(nums: Numbers, s: string)
    ensures Parse(nums, ["-g", s]) == Success(Defaults().(mode := Some(Generate), shape := Some(s)))
    ensures Parse(nums, ["-i", s]) == Success(Defaults().(mode := Some(Calculate), infile := Some(s)))
  {
    assert ["-g", s][2..] == [];
    assert ["-i", s][2..] == [];
  }

  /** An unrecognised flag is skipped with its partner and changes nothing. */
  lemma UnknownFlagSkipped(nums: Numbers, o: Options, flag: string, value: string, rest: seq<string>)
    requires !Known(flag)
    ensures Scan(nums, o, [flag, value] + rest) == Scan(nums, o, rest)
    ensures Scan(nums, o, [flag]) == Success(o)
  {
    assert ([flag, value] + rest)[2..] == rest;
  }

  /** A recognised flag with nothing after it makes the parser throw. */
  lemma DanglingFlagFails(nums: Numbers, o: Options, args: seq<string>, flag: string)
    requires |args| % 2 == 0 && Known(flag) && Scan(nums, o, args).Success?
    ensures Scan(nums, o, args + [flag]) == Failure(MissingValue(flag))
    decreases |args|
  {
    if |args| > 0 {
      assert (args + [flag])[2..] == args[2..] + [flag];
      if Known(args[0]) {
        DanglingFlagFails(nums, Apply(nums, o, args[0], args[1]).value, args[2..], flag);
      } else {
        DanglingFlagFails(nums, o, args[2..], flag);
      }
    }
  }
}
