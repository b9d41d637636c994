/** The entry point's decision between the two modes, taken on the parsed
    values of the -i1, -i2, -g and -n flags. */
module Cli {
  import Noise

  /** The parsed flags: the two input paths, the generation size and the image count. */
  datatype Flags = Flags(i1: string, i2: string, g: int, n: int)

  /** The values the flags take when they are not given. */
  const Defaults := Flags("", "", 0, 1)

  /** What the program goes on to do: generate count noise images of the given
      size, XOR the two named images onto standard output, or print the usage
      text and exit with the given status without doing either. */
  datatype Mode = Generate(size: nat, count: int) | XorFiles(first: string, second: string) | Usage(exitStatus: int)

  /** The decision at the top of the entry point: a positive size wins, then a
      missing path sends the program to the usage exit. */
  function SelectMode(f: Flags): (m: Mode)
    ensures m.Generate? <==> f.g > 0
    ensures m.Generate? ==> m.size == f.g && m.count == f.n
    ensures m.Usage? <==> f.g <= 0 && (f.i1 == "" || f.i2 == "")
    ensures m.Usage? ==> m.exitStatus == 1
    ensures m.XorFiles? ==> m.first == f.i1 && m.second == f.i2
  {
    if f.g > 0 then Generate(f.g, f.n)
    else if f.i1 == "" || f.i2 == "" then Usage(1)
    else XorFiles(f.i1, f.i2)
  }

  /** The files a mode creates: the generated batch, and nothing otherwise
      (the XOR result goes to standard output). */
  function CreatedFiles(m: Mode): seq<string> {
    match m
    case Generate(_, count) => Noise.OutputNames(count)
    case _ => []
  }

  /** A positive size selects generation with the given count, whatever paths are given. */
  lemma GenerateIgnoresPaths(f: Flags, p1: string, p2: string)
    requires f.g > 0
    ensures SelectMode(f) == Generate(f.g, f.n)
    ensures SelectMode(f.(i1 := p1, i2 := p2)) == SelectMode(f)
  {
  }

  /** Without generation the image count plays no part: the usage exit and XOR
      mode are decided by the two paths alone, whatever -n says. */
  lemma UsageWhenPathMissing(f: Flags, n: int)
    ensures f.g <= 0 ==> SelectMode(f.(n := n)) == SelectMode(f)
    ensures f.g <= 0 && (f.i1 == "" || f.i2 == "") ==> SelectMode(f) == Usage(1)
  {
  }

  /** XOR mode is entered only with both paths given, and uses them in order. */
  lemma XorUsesBothPaths(f: Flags)
    ensures SelectMode(f).XorFiles? <==> f.g <= 0 && f.i1 != "" && f.i2 != ""
    ensures SelectMode(f).XorFiles? ==> SelectMode(f) == XorFiles(f.i1, f.i2)
  {
  }

  /** Running with no flags at all prints the usage text. */
  lemma DefaultsGiveUsage()
    ensures SelectMode(Defaults) == Usage(1)
  {
  }

  /** Only generation with a positive count creates files; the usage exit creates none. */
  lemma FilesOnlyFromGeneration(f: Flags)
    ensures |CreatedFiles(SelectMode(f))| > 0 <==> f.g > 0 && f.n > 0
    ensures f.g > 0 ==> CreatedFiles(SelectMode(f)) == Noise.OutputNames(f.n)
  {
  }
}
