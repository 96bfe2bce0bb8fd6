/** internal/services/post.go, the input checks of `CreatePost`: content and
    the optional spoiler label are trimmed and must be non-empty and short
    enough. Lengths are counted in runes: a `string` here is a sequence of
    code points, so `|s|` is `len([]rune(s))`. */
module Posts {
  import opened Common
  import opened GoStrings

  const MaxContentRunes := 480
  const MaxSpoilerRunes := 64

  datatype PostInputError =
    | BadContent      // "bad content"
    | InvalidSpoiler  // "invalid spoiler"

  /** The content check: trimmed, then 1 to 480 runes. */
  function CheckContent(content: string): (r: Result<string, PostInputError>)
    ensures r.Ok? <==> 1 <= |TrimSpace(content)| <= MaxContentRunes
    ensures r.Ok? ==> r.value == TrimSpace(content)
    ensures r.Err? ==> r.error == BadContent
  {
    var c := TrimSpace(content);
    if c == "" || |c| > MaxContentRunes then Err(BadContent) else Ok(c)
  }

  /** The spoiler check: a missing spoiler is accepted as it is; a present
      one is trimmed in place, then must have 1 to 64 runes. */
  function CheckSpoiler(spoiler: Option<string>): (r: Result<Option<string>, PostInputError>)
    ensures spoiler.None? ==> r == Ok(None)
    ensures spoiler.Some? ==>
              && (r.Ok? <==> 1 <= |TrimSpace(spoiler.value)| <= MaxSpoilerRunes)
              && (r.Ok? ==> r.value == Some(TrimSpace(spoiler.value)))
              && (r.Err? ==> r.error == InvalidSpoiler)
  {
    match spoiler
    case None => Ok(None)
    case Some(s) =>
      var t := TrimSpace(s);
      if t == "" || |t| > MaxSpoilerRunes then Err(InvalidSpoiler) else Ok(Some(t))
  }

  datatype PostInput = PostInput(content: string, spoilerOf: Option<string>)

  /** Both checks, content first. */
  function ValidatePost(content: string, spoiler: Option<string>): (r: Result<PostInput, PostInputError>)
    ensures CheckContent(content).Err? ==> r == Err(BadContent)
    ensures CheckContent(content).Ok? && CheckSpoiler(spoiler).Err? ==> r == Err(InvalidSpoiler)
    ensures r.Ok? <==> CheckContent(content).Ok? && CheckSpoiler(spoiler).Ok?
    ensures r.Ok? ==> r.value == PostInput(CheckContent(content).value, CheckSpoiler(spoiler).value)
  {
    var c := CheckContent(content);
    if c.Err? then Err(c.error)
    else
      var s := CheckSpoiler(spoiler);
      if s.Err? then Err(s.error) else Ok(PostInput(c.value, s.value))
  }

  lemma CheckContentIdempotent(content: string)
    requires CheckContent(content).Ok?
    ensures CheckContent(CheckContent(content).value) == CheckContent(content)
  {
    TrimSpaceIdempotent(content);
  }

  lemma CheckSpoilerIdempotent(spoiler: Option<string>)
    requires CheckSpoiler(spoiler).Ok?
    ensures CheckSpoiler(CheckSpoiler(spoiler).value) == CheckSpoiler(spoiler)
  {
    if spoiler.Some? {
      TrimSpaceIdempotent(spoiler.value);
    }
  }

  /** What is stored passes the checks again unchanged. */
  lemma ValidatePostIdempotent(content: string, spoiler: Option<string>)
    requires ValidatePost(content, spoiler).Ok?
    ensures var v := ValidatePost(content, spoiler).value;
      ValidatePost(v.content, v.spoilerOf) == Ok(v)
  {
    CheckContentIdempotent(content);
    CheckSpoilerIdempotent(spoiler);
  }

  /** Text made of white space alone is refused, however long. */
  lemma BlankContentRefused(content: string)
    requires AllSpace(content)
    ensures CheckContent(content) == Err(BadContent)
  {
    TrimSpaceOfBlank(content);
  }
}
