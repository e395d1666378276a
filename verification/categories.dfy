/**
 * The seven content categories (the keys of the application's category
 * table) and the lower-case names under which they are stored.
 */
module Categories {
  import opened Wrappers

  datatype Category = Url | Email | Code | Phone | Filepath | Image | Text

  /** Every category once, in the order of the category table. */
  const AllCategories: seq<Category> := [Url, Email, Code, Phone, Filepath, Image, Text]

  /** The stored name of a category. */
  function Name(c: Category): string {
    match c
    case Url => "url"
    case Email => "email"
    case Code => "code"
    case Phone => "phone"
    case Filepath => "filepath"
    case Image => "image"
    case Text => "text"
  }

  /** The category stored under `s`, if any. */
  function Parse(s: string): (r: Option<Category>)
    ensures r.Some? ==> Name(r.value) == s
  {
    if s == "url" then Some(Url)
    else if s == "email" then Some(Email)
    else if s == "code" then Some(Code)
    else if s == "phone" then Some(Phone)
    else if s == "filepath" then Some(Filepath)
    else if s == "image" then Some(Image)
    else if s == "text" then Some(Text)
    else None
  }

  /** Names are read back as the category they name, and no two categories share one. */
  lemma ParseName(c: Category)
    ensures Parse(Name(c)) == Some(c)
  {
  }

  /** Parsing finds every category by its name. */
  lemma ParseComplete(s: string, c: Category)
    requires Name(c) == s
    ensures Parse(s) == Some(c)
  {
  }

  lemma NamesDistinct(c: Category, d: Category)
    ensures Name(c) == Name(d) <==> c == d
  {
    ParseName(c);
    ParseName(d);
  }

  lemma AllCategoriesComplete(c: Category)
    ensures c in AllCategories
  {
  }
}
