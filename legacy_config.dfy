/**
 * The older configuration class: no branch map, no default author, and a
 * reader that checks and reads only `repository` and `include`.
 */
module LegacyConfig {
  import opened Outcomes
  import opened Php

  /** The constructor arguments `createFromConfigurationFile()` passes; the author is always left at its default. */
  datatype Settings = Settings(repository: Option<string>, includes: PhpArray, author: Option<string>)

  /**
   * `createFromConfigurationFile()` on the parsed document: `repository` must
   * be a string and `include` an array when set (null counts as unset), in
   * that order; the `author` key is never looked at.
   */
  function Validate(doc: Value): (r: Result<Settings>)
    ensures r.Ok? <==> !(FieldIsSet(doc, StrKey("repository")) && !Field(doc, StrKey("repository")).value.Str?)
                       && !(FieldIsSet(doc, StrKey("include")) && !Field(doc, StrKey("include")).value.Arr?)
    ensures r.Err? && FieldIsSet(doc, StrKey("repository")) && !Field(doc, StrKey("repository")).value.Str? ==>
              r.error == InvalidArgument("repository")
    ensures r.Err? && r.error != InvalidArgument("repository") ==> r.error == InvalidArgument("include")
    ensures r.Ok? ==> r.value.author.None?
    ensures r.Ok? ==> (r.value.repository.Some? <==> FieldIsSet(doc, StrKey("repository")))
    ensures r.Ok? && FieldIsSet(doc, StrKey("repository")) ==> Field(doc, StrKey("repository")) == Some(Str(r.value.repository.value))
    ensures r.Ok? && FieldIsSet(doc, StrKey("include")) ==> Field(doc, StrKey("include")) == Some(Arr(r.value.includes))
    ensures r.Ok? && !FieldIsSet(doc, StrKey("include")) ==> r.value.includes == []
  {
    var repository := Field(doc, StrKey("repository"));
    var includes := Field(doc, StrKey("include"));
    if FieldIsSet(doc, StrKey("repository")) && !repository.value.Str? then Err(InvalidArgument("repository"))
    else if FieldIsSet(doc, StrKey("include")) && !includes.value.Arr? then Err(InvalidArgument("include"))
    else
      Ok(Settings(if FieldIsSet(doc, StrKey("repository")) then Some(repository.value.s) else None,
                  if FieldIsSet(doc, StrKey("include")) then includes.value.entries else [],
                  None))
  }

  /** Whatever the document says about `author` (or `branches_map`), the outcome is the same. */
  lemma AuthorKeyIgnored(d1: Value, d2: Value)
    requires Field(d1, StrKey("repository")) == Field(d2, StrKey("repository"))
    requires Field(d1, StrKey("include")) == Field(d2, StrKey("include"))
    ensures Validate(d1) == Validate(d2)
  {
  }

  /** An author that the current reader would reject passes here, and is dropped. */
  lemma MistypedAuthorAccepted(author: Value)
    ensures Validate(Arr([(StrKey("author"), author)])) == Ok(Settings(None, [], None))
  {
    var doc := Arr([(StrKey("author"), author)]);
    assert Field(doc, StrKey("repository")) == None;
    assert Field(doc, StrKey("include")) == None;
  }

  class Config {
    var repository: Option<string>
    var includes: PhpArray
    var author: Option<string>
    /** `None` until `setBranch()` runs. */
    var branch: Option<string>

    constructor (repository: Option<string>, includes: PhpArray, author: Option<string>)
      ensures this.repository == repository && this.includes == includes && this.author == author && branch.None?
    {
      this.repository := repository;
      this.includes := includes;
      this.author := author;
      this.branch := None;
    }

    method SetRepository(repository: string)
      modifies this
      ensures this.repository == Some(repository)
      ensures includes == old(includes) && author == old(author) && branch == old(branch)
    {
      this.repository := Some(repository);
    }

    method SetInclude(includes: PhpArray)
      modifies this
      ensures this.includes == includes
      ensures repository == old(repository) && author == old(author) && branch == old(branch)
    {
      this.includes := includes;
    }

    method SetAuthor(author: string)
      modifies this
      ensures this.author == Some(author)
      ensures repository == old(repository) && includes == old(includes) && branch == old(branch)
    {
      this.author := Some(author);
    }

    method SetBranch(branch: string)
      modifies this
      ensures this.branch == Some(branch)
      ensures repository == old(repository) && includes == old(includes) && author == old(author)
    {
      this.branch := Some(branch);
    }

    /** `getRepository()`: a null repository cannot leave through the `string` return type. */
    function GetRepository(): (r: Result<string>)
      reads this
      ensures r.Ok? <==> repository.Some?
      ensures r.Ok? ==> r.value == repository.value
      ensures r.Err? ==> r.error == TypeError("string")
    {
      if repository.Some? then Ok(repository.value) else Err(TypeError("string"))
    }

    /** `getAuthor()`: no default here, so a null author is a type error. */
    function GetAuthor(): (r: Result<string>)
      reads this
      ensures r.Ok? <==> author.Some?
      ensures r.Ok? ==> r.value == author.value
      ensures r.Err? ==> r.error == TypeError("string")
    {
      if author.Some? then Ok(author.value) else Err(TypeError("string"))
    }

    /** `getBranch()`: the set branch, with no renaming. */
    function GetBranch(): (r: Result<string>)
      reads this
      ensures branch.Some? ==> r == Ok(branch.value)
      ensures branch.None? ==> r == Err(UninitializedProperty("branch"))
    {
      if branch.Some? then Ok(branch.value) else Err(UninitializedProperty("branch"))
    }

    function GetInclude(): (r: PhpArray)
      reads this
      ensures r == includes
    {
      includes
    }
  }

  /** `createFromConfigurationFile()`: a new configuration, whose author is never set, when the checks pass. */
  method CreateFromConfigurationFile(doc: Value) returns (r: Result<Config>)
    ensures r.Err? <==> Validate(doc).Err?
    ensures r.Err? ==> r.error == Validate(doc).error
    ensures r.Ok? ==> fresh(r.value)
    ensures r.Ok? ==> var s := Validate(doc).value;
      r.value.repository == s.repository && r.value.includes == s.includes
      && r.value.author.None? && r.value.branch.None?
  {
    match Validate(doc)
    case Err(e) =>
      r := Err(e);
    case Ok(s) =>
      var c := new Config(s.repository, s.includes, s.author);
      r := Ok(c);
  }

  /** Reading the author of a configuration built from a file fails until `setAuthor()` runs. */
  method AuthorOfReadConfiguration(doc: Value) returns (r: Result<string>)
    requires Validate(doc).Ok?
    ensures r == Err(TypeError("string"))
  {
    var c := CreateFromConfigurationFile(doc);
    r := c.value.GetAuthor();
  }
}
