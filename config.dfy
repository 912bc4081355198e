/**
 * The configuration read from `.drupal-artifact.yml`: where to push, what
 * to include, who commits, and how source branches map to artifact
 * branches. The YAML document arrives already parsed, as a PHP value.
 */
module Config {
  import opened Outcomes
  import opened Php

  /** The values `createFromConfigurationFile()` hands to the constructor. */
  datatype Settings = Settings(repository: Option<string>, includes: PhpArray, author: Option<string>, branchesMap: PhpArray)

  // ---------------------------------------------------------------------
  // createFromConfigurationFile()

  /** A set key whose value has the wrong type; a null value counts as absent, because of `isset()`. */
  predicate Mistyped(doc: Value, key: string, wantString: bool) {
    FieldIsSet(doc, StrKey(key)) && (if wantString then !Field(doc, StrKey(key)).value.Str? else !Field(doc, StrKey(key)).value.Arr?)
  }

  /** `$configuration[$key] ?? NULL` for a key already checked to hold a string. */
  function StringOrNull(doc: Value, key: string): Option<string> {
    if FieldIsSet(doc, StrKey(key)) && Field(doc, StrKey(key)).value.Str? then Some(Field(doc, StrKey(key)).value.s) else None
  }

  /** `$configuration[$key] ?? []` for a key already checked to hold an array. */
  function ArrayOrEmpty(doc: Value, key: string): PhpArray {
    if FieldIsSet(doc, StrKey(key)) && Field(doc, StrKey(key)).value.Arr? then Field(doc, StrKey(key)).value.entries else []
  }

  /** Every known key is absent, null, or of its declared type. */
  predicate WellTyped(doc: Value) {
    !Mistyped(doc, "repository", true) && !Mistyped(doc, "author", true)
    && !Mistyped(doc, "include", false) && !Mistyped(doc, "branches_map", false)
  }

  /**
   * The checks of `createFromConfigurationFile()` on the parsed document and
   * the constructor arguments it then builds. The two `foreach` loops check
   * `repository`, `author`, then `include`, `branches_map`, and the first
   * offending key is reported. A document that is not a mapping at all has
   * no keys, so it yields the defaults.
   */
  function Validate(doc: Value): (r: Result<Settings>)
    ensures r.Ok? <==> WellTyped(doc)
    ensures r.Err? ==> exists i :: 0 <= i < |CheckOrder| && r.error == InvalidArgument(CheckOrder[i].0)
                                   && Mistyped(doc, CheckOrder[i].0, CheckOrder[i].1)
                                   && forall j :: 0 <= j < i ==> !Mistyped(doc, CheckOrder[j].0, CheckOrder[j].1)
    ensures r.Ok? ==> (r.value.repository.Some? <==> FieldIsSet(doc, StrKey("repository")))
    ensures r.Ok? && FieldIsSet(doc, StrKey("repository")) ==> Field(doc, StrKey("repository")) == Some(Str(r.value.repository.value))
    ensures r.Ok? ==> (r.value.author.Some? <==> FieldIsSet(doc, StrKey("author")))
    ensures r.Ok? && FieldIsSet(doc, StrKey("author")) ==> Field(doc, StrKey("author")) == Some(Str(r.value.author.value))
    ensures r.Ok? && FieldIsSet(doc, StrKey("include")) ==> Field(doc, StrKey("include")) == Some(Arr(r.value.includes))
    ensures r.Ok? && !FieldIsSet(doc, StrKey("include")) ==> r.value.includes == []
    ensures r.Ok? && FieldIsSet(doc, StrKey("branches_map")) ==> Field(doc, StrKey("branches_map")) == Some(Arr(r.value.branchesMap))
    ensures r.Ok? && !FieldIsSet(doc, StrKey("branches_map")) ==> r.value.branchesMap == []
  {
    assert CheckOrder[0] == ("repository", true) && CheckOrder[1] == ("author", true);
    assert CheckOrder[2] == ("include", false) && CheckOrder[3] == ("branches_map", false);
    if Mistyped(doc, "repository", true) then Err(InvalidArgument("repository"))
    else if Mistyped(doc, "author", true) then Err(InvalidArgument("author"))
    else if Mistyped(doc, "include", false) then Err(InvalidArgument("include"))
    else if Mistyped(doc, "branches_map", false) then Err(InvalidArgument("branches_map"))
    else
      Ok(Settings(StringOrNull(doc, "repository"), ArrayOrEmpty(doc, "include"),
                  StringOrNull(doc, "author"), ArrayOrEmpty(doc, "branches_map")))
  }

  /** The order of the checks, with whether each key must hold a string (else an array). */
  const CheckOrder: seq<(string, bool)> := [("repository", true), ("author", true), ("include", false), ("branches_map", false)]

  /** Two documents that agree on which known keys are set, and on their values when set. */
  predicate SameSetFields(d1: Value, d2: Value) {
    forall k :: k in KnownKeys ==>
      FieldIsSet(d1, k) == FieldIsSet(d2, k) && (FieldIsSet(d1, k) ==> Field(d1, k) == Field(d2, k))
  }

  /** Validation looks at nothing but the set known keys. */
  lemma ValidateSeesOnlyKnownKeys(d1: Value, d2: Value)
    requires SameSetFields(d1, d2)
    ensures Validate(d1) == Validate(d2)
  {
    assert StrKey("repository") in KnownKeys && StrKey("author") in KnownKeys;
    assert StrKey("include") in KnownKeys && StrKey("branches_map") in KnownKeys;
  }

  /** A document without any of the known keys, or no mapping at all, gives the constructor defaults. */
  lemma DefaultsWhenAbsent(doc: Value)
    requires !FieldIsSet(doc, StrKey("repository")) && !FieldIsSet(doc, StrKey("author"))
    requires !FieldIsSet(doc, StrKey("include")) && !FieldIsSet(doc, StrKey("branches_map"))
    ensures Validate(doc) == Ok(Settings(None, [], None, []))
  {
  }

  lemma {:induction false} GetAppendOther(a: PhpArray, k: ArrayKey, v: Value, other: ArrayKey)
    requires other != k
    ensures Get(a + [(k, v)], other) == Get(a, other)
    decreases |a|
  {
    if a != [] {
      assert (a + [(k, v)])[1..] == a[1..] + [(k, v)];
      GetAppendOther(a[1..], k, v, other);
    } else {
      assert Get([(k, v)], other) == Get([], other);
    }
  }

  /** The keys `createFromConfigurationFile()` looks at; YAML gives them as string keys. */
  const KnownKeys: set<ArrayKey> := {StrKey("repository"), StrKey("author"), StrKey("include"), StrKey("branches_map")}

  /** Keys other than the four known ones are ignored. */
  lemma UnknownKeyIgnored(entries: PhpArray, k: ArrayKey, v: Value)
    requires k !in KnownKeys
    ensures Validate(Arr(entries + [(k, v)])) == Validate(Arr(entries))
  {
    forall known | known in KnownKeys
      ensures Field(Arr(entries + [(k, v)]), known) == Field(Arr(entries), known)
    {
      GetAppendOther(entries, k, v, known);
    }
    ValidateSeesOnlyKnownKeys(Arr(entries + [(k, v)]), Arr(entries));
  }

  /** A known key set to null is treated exactly as if it were missing. */
  lemma NullMeansAbsent(entries: PhpArray, k: ArrayKey)
    requires k in KnownKeys
    requires Get(entries, k).None?
    ensures Validate(Arr(entries + [(k, Null)])) == Validate(Arr(entries))
  {
    var extended := entries + [(k, Null)];
    forall known | known in KnownKeys
      ensures FieldIsSet(Arr(extended), known) == FieldIsSet(Arr(entries), known)
      ensures Field(Arr(extended), known) == Field(Arr(entries), known) || !FieldIsSet(Arr(entries), known)
    {
      if known != k {
        GetAppendOther(entries, k, Null, known);
      } else {
        GetAppendNew(entries, k, Null);
      }
    }
    ValidateSeesOnlyKnownKeys(Arr(extended), Arr(entries));
  }

  lemma {:induction false} GetAppendNew(a: PhpArray, k: ArrayKey, v: Value)
    requires Get(a, k).None?
    ensures Get(a + [(k, v)], k) == Some(v)
    decreases |a|
  {
    if a != [] {
      assert (a + [(k, v)])[1..] == a[1..] + [(k, v)];
      GetAppendNew(a[1..], k, v);
    }
  }

  // ---------------------------------------------------------------------
  // getBranch()

  /**
   * `$this->branches_map[$branch] ?? $branch` returned as a `string`: the
   * branch name is used as an array key (so `"12"` finds the integer key 12),
   * a null mapping counts as missing, and a mapped value that is not a string
   * is coerced, or rejected when it is an array.
   */
  function MapBranch(branchesMap: PhpArray, branch: string): (r: Result<string>)
    ensures !IsSet(branchesMap, KeyOf(branch)) ==> r == Ok(branch)
    ensures IsSet(branchesMap, KeyOf(branch)) ==> r == CoerceToString(Get(branchesMap, KeyOf(branch)).value)
    ensures r.Err? <==> IsSet(branchesMap, KeyOf(branch)) && Get(branchesMap, KeyOf(branch)).value.Arr?
  {
    CoerceToString(Coalesce(branchesMap, KeyOf(branch), Str(branch)))
  }

  /** A mapping whose value is a string renames the branch to it. */
  lemma MappedBranchRenamed(branchesMap: PhpArray, branch: string, target: string)
    requires Get(branchesMap, KeyOf(branch)) == Some(Str(target))
    ensures MapBranch(branchesMap, branch) == Ok(target)
  {
  }

  /** A branch named by digits is found under the integer key YAML gives such a mapping key. */
  lemma NumericBranchMapped(n: nat, target: string, rest: PhpArray)
    requires n <= IntMax
    ensures MapBranch([(IntKey(n), Str(target))] + rest, IntToString(n)) == Ok(target)
  {
    IntToStringRoundTrip(n);
    assert KeyOf(IntToString(n)) == IntKey(n);
  }

  // ---------------------------------------------------------------------
  // The configuration object

  class Config {
    var repository: Option<string>
    var includes: PhpArray
    var author: Option<string>
    /** `None` until `setBranch()` runs: the typed property has no default. */
    var branch: Option<string>
    var branchesMap: PhpArray

    constructor (repository: Option<string>, includes: PhpArray, author: Option<string>, branchesMap: PhpArray)
      ensures this.repository == repository && this.includes == includes && this.author == author
      ensures this.branchesMap == branchesMap && this.branch.None?
    {
      this.repository := repository;
      this.includes := includes;
      this.author := author;
      this.branchesMap := branchesMap;
      this.branch := None;
    }

    method SetRepository(repository: string)
      modifies this
      ensures this.repository == Some(repository)
      ensures includes == old(includes) && author == old(author) && branch == old(branch) && branchesMap == old(branchesMap)
    {
      this.repository := Some(repository);
    }

    method SetInclude(includes: PhpArray)
      modifies this
      ensures this.includes == includes
      ensures repository == old(repository) && author == old(author) && branch == old(branch) && branchesMap == old(branchesMap)
    {
      this.includes := includes;
    }

    method SetAuthor(author: string)
      modifies this
      ensures this.author == Some(author)
      ensures repository == old(repository) && includes == old(includes) && branch == old(branch) && branchesMap == old(branchesMap)
    {
      this.author := Some(author);
    }

    method SetBranch(branch: string)
      modifies this
      ensures this.branch == Some(branch)
      ensures repository == old(repository) && includes == old(includes) && author == old(author) && branchesMap == old(branchesMap)
    {
      this.branch := Some(branch);
    }

    /** `getRepository()`: a null repository cannot leave through the `string` return type. */
    function GetRepository(): (r: Result<string>)
      reads this
      ensures r.Ok? <==> repository.Some?
      ensures r.Ok? ==> r.value == repository.value
      ensures r.Err? ==> r.error == TypeError("string")
    {
      if repository.Some? then Ok(repository.value) else Err(TypeError("string"))
    }

    /** `getAuthor()`: the stored author, else the default commit author. */
    function GetAuthor(defaultAuthor: string): (r: string)
      reads this
      ensures author.Some? ==> r == author.value
      ensures author.None? ==> r == defaultAuthor
    {
      if author.Some? then author.value else defaultAuthor
    }

    /** `getBranch()`: the set branch renamed through `branches_map`; reading it before `setBranch()` is an error. */
    function GetBranch(): (r: Result<string>)
      reads this
      ensures branch.None? ==> r == Err(UninitializedProperty("branch"))
      ensures branch.Some? ==> r == MapBranch(branchesMap, branch.value)
    {
      if branch.None? then Err(UninitializedProperty("branch")) else MapBranch(branchesMap, branch.value)
    }

    function GetInclude(): (r: PhpArray)
      reads this
      ensures r == includes
    {
      includes
    }
  }

  /** `createFromConfigurationFile()`: a new configuration when the document passes the checks. */
  method CreateFromConfigurationFile(doc: Value) returns (r: Result<Config>)
    ensures r.Err? <==> Validate(doc).Err?
    ensures r.Err? ==> r.error == Validate(doc).error
    ensures r.Ok? ==> fresh(r.value)
    ensures r.Ok? ==> var s := Validate(doc).value;
      r.value.repository == s.repository && r.value.includes == s.includes && r.value.author == s.author
      && r.value.branchesMap == s.branchesMap && r.value.branch.None?
  {
    match Validate(doc)
    case Err(e) =>
      r := Err(e);
    case Ok(s) =>
      var c := new Config(s.repository, s.includes, s.author, s.branchesMap);
      r := Ok(c);
  }

  /** Setting a branch and reading it back goes through the map; the other fields keep their values. */
  method SetThenGetBranch(c: Config, branch: string) returns (r: Result<string>)
    modifies c
    ensures r == MapBranch(old(c.branchesMap), branch)
    ensures c.repository == old(c.repository) && c.includes == old(c.includes) && c.author == old(c.author)
  {
    c.SetBranch(branch);
    r := c.GetBranch();
  }

  /** Setting an author and reading it back gives that author, whatever the default. */
  method SetThenGetAuthor(c: Config, author: string, defaultAuthor: string) returns (r: string)
    modifies c
    ensures r == author
    ensures c.repository == old(c.repository) && c.includes == old(c.includes) && c.branch == old(c.branch)
  {
    c.SetAuthor(author);
    r := c.GetAuthor(defaultAuthor);
  }
}
