/**
 * The command line of the converter:
 *
 *   rmod_converter.py diffuse specular normal shininess input_file [output_file]
 *
 * `'_'` in a texture position means "no texture".  With six arguments the
 * output name is the input name with its extension replaced by `.rmod`.
 * `float(argv[4])` is a parameter `parse`, `None` where Python raises
 * `ValueError`.
 */
module Arguments {
  import opened Common
  import opened Serializer

  /** The list `process_texture_args` returns: the three texture paths, then the shininess. */
  datatype TextureArgs = TextureArgs(textures: seq<Option<string>>, shininess: Float)

  /** The tuple `(diffuse, spec, norm, shininess, input_name, output_name)` that `main` unpacks. */
  datatype Invocation = Invocation(
    diffuse: Option<string>,
    specular: Option<string>,
    normal: Option<string>,
    shininess: Float,
    inputName: string,
    outputName: string)

  /** `argv[i] if argv[i] != '_' else None`. */
  function TextureArg(a: string): Option<string>
  {
    if a == "_" then None else Some(a)
  }

  /** What `process_texture_args(argv)` returns, or the error of `float(argv[4])`. */
  function TextureArgsOf(argv: seq<string>, parse: string -> Option<Float>): Result<TextureArgs>
    requires |argv| >= 5
  {
    match parse(argv[4])
    case None => Failure(InvalidFloat(argv[4]))
    case Some(f) => Success(TextureArgs([TextureArg(argv[1]), TextureArg(argv[2]), TextureArg(argv[3])], f))
  }

  /**
   * Texture positions 1 to 3: `'_'` stands for no texture, anything else is
   * the path itself; the shininess is `argv[4]` parsed, and if it does not
   * parse that is the error.
   */
  lemma TextureArgsMeaning(argv: seq<string>, parse: string -> Option<Float>)
    requires |argv| >= 5
    ensures TextureArgsOf(argv, parse).Success? <==> parse(argv[4]).Some?
    ensures TextureArgsOf(argv, parse).Failure? ==> TextureArgsOf(argv, parse).error == InvalidFloat(argv[4])
    ensures TextureArgsOf(argv, parse).Success? ==>
      var t := TextureArgsOf(argv, parse).value;
      && |t.textures| == 3
      && t.shininess == parse(argv[4]).value
      && (forall k | 0 <= k < 3 :: (t.textures[k] == None <==> argv[k + 1] == "_"))
      && (forall k | 0 <= k < 3 :: t.textures[k] != None ==> t.textures[k] == Some(argv[k + 1]))
  {
  }

  /** `process_texture_args(argv)`: the loop over positions 1 to 3, then the shininess. */
  method ProcessTextureArgs(argv: seq<string>, parse: string -> Option<Float>) returns (r: Result<TextureArgs>)
    requires |argv| >= 5
    ensures r == TextureArgsOf(argv, parse)
  {
    var args: seq<Option<string>> := [];
    for i := 1 to 4
      invariant |args| == i - 1
      invariant forall k | 0 <= k < i - 1 :: args[k] == TextureArg(argv[k + 1])
    {
      args := args + [if argv[i] != "_" then Some(argv[i]) else None];
    }
    var shininess := parse(argv[4]);
    if shininess.None? {
      return Failure(InvalidFloat(argv[4]));
    }
    assert args == [TextureArg(argv[1]), TextureArg(argv[2]), TextureArg(argv[3])];
    r := Success(TextureArgs(args, shininess.value));
  }

  /** The index of the last `c` in `s`, or -1: `str.rfind`. */
  function LastIndex(s: string, c: char): (i: int)
    ensures -1 <= i < |s|
    ensures i >= 0 ==> s[i] == c
    ensures forall k | i < k < |s| :: s[k] != c
  {
    if s == [] then -1
    else if s[|s| - 1] == c then |s| - 1
    else LastIndex(s[..|s| - 1], c)
  }

  /**
   * `os.path.splitext(p)` on POSIX: the extension starts at the last `'.'`
   * after the last `'/'`, unless only dots precede it in the last path
   * component (a name such as `.profile` has no extension).
   */
  function SplitExt(p: string): (r: (string, string))
    ensures r.0 + r.1 == p
    ensures r.1 == "" || r.1[0] == '.'
  {
    var sep := LastIndex(p, '/');
    var dot := LastIndex(p, '.');
    if dot > sep && exists k | sep + 1 <= k < dot :: p[k] != '.' then (p[..dot], p[dot..]) else (p, "")
  }

  /**
   * The root and the extension make up the path; an extension is a single
   * dot followed by no dot and no slash, and a name that consists of dots
   * only before it keeps its dot.
   */
  lemma SplitExtParts(p: string)
    ensures SplitExt(p).0 + SplitExt(p).1 == p
    ensures var ext := SplitExt(p).1;
      ext == "" || (ext[0] == '.' && forall k | 1 <= k < |ext| :: ext[k] != '.' && ext[k] != '/')
    ensures var (root, ext) := SplitExt(p);
      ext != "" ==> exists k | LastIndex(root, '/') < k < |root| :: root[k] != '.'
  {
    var sep := LastIndex(p, '/');
    var dot := LastIndex(p, '.');
    if dot > sep && exists k | sep + 1 <= k < dot :: p[k] != '.' {
      var root := p[..dot];
      var k :| sep + 1 <= k < dot && p[k] != '.';
      LastIndexOfPrefix(p, '/', dot);
      assert root[k] == p[k];
    }
  }

  /** A path with no dot has no extension. */
  lemma SplitExtNoDot(p: string)
    requires forall k | 0 <= k < |p| :: p[k] != '.'
    ensures SplitExt(p) == (p, "")
  {
  }

  /**
   * Appending an extension to a name whose last component has a character
   * other than a dot splits back into exactly that name and extension.
   */
  lemma SplitExtAppended(base: string, ext: string)
    requires |ext| >= 1 && ext[0] == '.' && forall k | 1 <= k < |ext| :: ext[k] != '.' && ext[k] != '/'
    requires exists k | LastIndex(base, '/') < k < |base| :: base[k] != '.'
    ensures SplitExt(base + ext) == (base, ext)
  {
    var p := base + ext;
    ExtensionMarks(base, ext);
    var k :| LastIndex(base, '/') < k < |base| && base[k] != '.';
    assert p[k] == base[k];
    assert p[..|base|] == base && p[|base|..] == ext;
  }

  /** In `base + ext`, the last dot is the one that starts `ext`, and the last slash is that of `base`. */
  lemma ExtensionMarks(base: string, ext: string)
    requires |ext| >= 1 && ext[0] == '.' && forall k | 1 <= k < |ext| :: ext[k] != '.' && ext[k] != '/'
    ensures LastIndex(base + ext, '.') == |base|
    ensures LastIndex(base + ext, '/') == LastIndex(base, '/')
  {
    LastIndexAppended(base, ext, '.');
    LastIndexAppended(base, ext, '/');
    assert LastIndex(ext, '.') == 0;
    assert LastIndex(ext, '/') == -1;
  }

  /** In a prefix that ends before position `n`, the last `c` is where it was in the whole, if it was before `n`. */
  lemma {:induction false} LastIndexOfPrefix(s: string, c: char, n: nat)
    requires n <= |s| && LastIndex(s, c) < n
    ensures LastIndex(s[..n], c) == LastIndex(s, c)
    decreases |s|
  {
    if n < |s| {
      assert s[|s| - 1] != c;
      assert s[..|s| - 1][..n] == s[..n];
      LastIndexOfPrefix(s[..|s| - 1], c, n);
    } else {
      assert s[..n] == s;
    }
  }

  /** The last `c` of `s + t`: in `t` if `t` has one, otherwise where it is in `s`. */
  lemma {:induction false} LastIndexAppended(s: string, t: string, c: char)
    ensures LastIndex(s + t, c) == if LastIndex(t, c) >= 0 then |s| + LastIndex(t, c) else LastIndex(s, c)
    decreases |t|
  {
    if t != [] {
      var n := |t| - 1;
      assert (s + t)[..|s + t| - 1] == s + t[..n];
      if t[n] != c {
        LastIndexAppended(s, t[..n], c);
      }
    } else {
      assert s + t == s;
    }
  }

  /** The invocation `handle_input(argv)` returns: the output name is the input name without its extension, plus `.rmod`. */
  function InputInvocation(argv: seq<string>, parse: string -> Option<Float>): Result<Invocation>
    requires |argv| >= 6
  {
    var t :- TextureArgsOf(argv, parse);
    Success(Invocation(t.textures[0], t.textures[1], t.textures[2], t.shininess,
                       argv[5], SplitExt(argv[5]).0 + ".rmod"))
  }

  /** The invocation `handle_input_output(argv)` returns: both names as given. */
  function InputOutputInvocation(argv: seq<string>, parse: string -> Option<Float>): Result<Invocation>
    requires |argv| >= 7
  {
    var t :- TextureArgsOf(argv, parse);
    Success(Invocation(t.textures[0], t.textures[1], t.textures[2], t.shininess, argv[5], argv[6]))
  }

  /** `handle_input(argv)`: the texture arguments, the input name, and the output name derived from it. */
  method HandleInput(argv: seq<string>, parse: string -> Option<Float>) returns (r: Result<Invocation>)
    requires |argv| >= 6
    ensures r == InputInvocation(argv, parse)
  {
    var args :- ProcessTextureArgs(argv, parse);
    var inputName := argv[5];
    var baseName := SplitExt(inputName).0;
    r := Success(Invocation(args.textures[0], args.textures[1], args.textures[2], args.shininess,
                            inputName, baseName + ".rmod"));
  }

  /** `handle_input_output(argv)`: the texture arguments and both names as given. */
  method HandleInputOutput(argv: seq<string>, parse: string -> Option<Float>) returns (r: Result<Invocation>)
    requires |argv| >= 7
    ensures r == InputOutputInvocation(argv, parse)
  {
    var args :- ProcessTextureArgs(argv, parse);
    r := Success(Invocation(args.textures[0], args.textures[1], args.textures[2], args.shininess,
                            argv[5], argv[6]));
  }

  /** The dispatch `handle_arguments[len(sys.argv)]` of `main`: 6 or 7 arguments, anything else is refused. */
  function HandleArguments(argv: seq<string>, parse: string -> Option<Float>): (r: Result<Invocation>)
    ensures |argv| != 6 && |argv| != 7 ==> r == Failure(InvalidInvocation)
    ensures r.Success? ==> r.value.inputName == argv[5]
  {
    if |argv| == 6 then InputInvocation(argv, parse)
    else if |argv| == 7 then InputOutputInvocation(argv, parse)
    else Failure(InvalidInvocation)
  }

  /**
   * The invocation `main` unpacks: accepted exactly for 6 or 7 arguments
   * with a parsable shininess; textures from positions 1 to 3 with `'_'` as
   * none; the input name is `argv[5]`; the output name is `argv[6]` if given,
   * otherwise the input name with its extension replaced by `.rmod`.
   */
  lemma HandleArgumentsMeaning(argv: seq<string>, parse: string -> Option<Float>)
    ensures var r := HandleArguments(argv, parse);
      && (|argv| != 6 && |argv| != 7 ==> r == Failure(InvalidInvocation))
      && (|argv| == 6 || |argv| == 7 ==>
            (r.Success? <==> parse(argv[4]).Some?) &&
            (r.Failure? ==> r.error == InvalidFloat(argv[4])))
      && (r.Success? ==>
            && r.value.diffuse == TextureArg(argv[1])
            && r.value.specular == TextureArg(argv[2])
            && r.value.normal == TextureArg(argv[3])
            && r.value.shininess == parse(argv[4]).value
            && r.value.inputName == argv[5]
            && (|argv| == 7 ==> r.value.outputName == argv[6])
            && (|argv| == 6 ==> r.value.outputName == SplitExt(argv[5]).0 + ".rmod"))
  {
  }

  /** With six arguments, `model.fbx`-style names become `model.rmod`. */
  lemma HandleInputReplacesExtension(argv: seq<string>, parse: string -> Option<Float>, base: string, ext: string)
    requires |argv| == 6 && parse(argv[4]).Some?
    requires argv[5] == base + ext
    requires |ext| >= 1 && ext[0] == '.' && forall k | 1 <= k < |ext| :: ext[k] != '.' && ext[k] != '/'
    requires exists k | LastIndex(base, '/') < k < |base| :: base[k] != '.'
    ensures HandleArguments(argv, parse).Success?
    ensures HandleArguments(argv, parse).value.outputName == base + ".rmod"
  {
    SplitExtAppended(base, ext);
  }
}
