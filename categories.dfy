/** `replace_data_categories`: seven `re.sub` calls applied one after another, each to the
    previous result, replacing what a category's pattern matches by the category's tag. */
module Categories {

  /** The backend's pattern table. `Email` and `UrlCat` have patterns but no step of the
      rewrite uses them; their tags are those of the frontend's classification and of the
      URL replacement. */
  datatype Category = Currency | Time | Day | Date | Phone | Percentage | Number | Email | UrlCat

  function Tag(c: Category): string {
    match c
    case Currency => "<cur>"
    case Time => "<time>"
    case Day => "<day>"
    case Date => "<date>"
    case Phone => "<phone>"
    case Percentage => "<perc>"
    case Number => "<num>"
    case Email => "<email>"
    case UrlCat => "<URL>"
  }

  /** `re.sub(REGEX_PATTERNS[c], repl, text)`: the regular-expression engine is a
      parameter, a total function of the category's pattern, the replacement and the text. */
  type Substitution = (Category, string, string) -> string

  /** The steps of the rewrite, in order. */
  const Pipeline: seq<Category> := [Currency, Time, Day, Date, Phone, Percentage, Number]

  /** The steps `cs`, applied left to right. */
  function Rewrite(sub: Substitution, cs: seq<Category>, text: string): string
  {
    if cs == [] then text else Rewrite(sub, cs[1..], sub(cs[0], Tag(cs[0]), text))
  }

  method ReplaceDataCategories(sub: Substitution, text: string) returns (modifiedText: string)
    ensures modifiedText == Rewrite(sub, Pipeline, text)
  {
    modifiedText := text;
    modifiedText := sub(Currency, "<cur>", modifiedText);
    modifiedText := sub(Time, "<time>", modifiedText);
    modifiedText := sub(Day, "<day>", modifiedText);
    modifiedText := sub(Date, "<date>", modifiedText);
    modifiedText := sub(Phone, "<phone>", modifiedText);
    modifiedText := sub(Percentage, "<perc>", modifiedText);
    modifiedText := sub(Number, "<num>", modifiedText);
    RewriteSteps(sub, text);
  }

  /** The pipeline is the composition of its seven substitutions, currency first. */
  lemma RewriteSteps(sub: Substitution, text: string)
    ensures Rewrite(sub, Pipeline, text)
            == sub(Number, "<num>", sub(Percentage, "<perc>", sub(Phone, "<phone>",
                 sub(Date, "<date>", sub(Day, "<day>", sub(Time, "<time>", sub(Currency, "<cur>", text)))))))
  {
    var t1 := sub(Currency, "<cur>", text);
    var t2 := sub(Time, "<time>", t1);
    var t3 := sub(Day, "<day>", t2);
    var t4 := sub(Date, "<date>", t3);
    var t5 := sub(Phone, "<phone>", t4);
    var t6 := sub(Percentage, "<perc>", t5);
    var t7 := sub(Number, "<num>", t6);
    calc {
      Rewrite(sub, Pipeline, text);
      Rewrite(sub, [Time, Day, Date, Phone, Percentage, Number], t1);
      Rewrite(sub, [Day, Date, Phone, Percentage, Number], t2);
      Rewrite(sub, [Date, Phone, Percentage, Number], t3);
      Rewrite(sub, [Phone, Percentage, Number], t4);
      Rewrite(sub, [Percentage, Number], t5);
      Rewrite(sub, [Number], t6);
      Rewrite(sub, [], t7);
    }
  }

  /** Running two step lists one after the other is running their concatenation. */
  lemma {:induction false} RewriteAppend(sub: Substitution, a: seq<Category>, b: seq<Category>, text: string)
    ensures Rewrite(sub, a + b, text) == Rewrite(sub, b, Rewrite(sub, a, text))
  {
    if a == [] {
      assert a + b == b;
    } else {
      assert (a + b)[0] == a[0] && (a + b)[1..] == a[1..] + b;
      RewriteAppend(sub, a[1..], b, sub(a[0], Tag(a[0]), text));
    }
  }

  /** The result depends only on the substitutions of the categories in the steps. */
  lemma {:induction false} RewriteDependsOnSteps(s1: Substitution, s2: Substitution, cs: seq<Category>, text: string)
    requires forall c, r, t :: c in cs ==> s1(c, r, t) == s2(c, r, t)
    ensures Rewrite(s1, cs, text) == Rewrite(s2, cs, text)
  {
    if cs != [] {
      assert cs[0] in cs;
      assert forall c :: c in cs[1..] ==> c in cs;
      RewriteDependsOnSteps(s1, s2, cs[1..], s1(cs[0], Tag(cs[0]), text));
    }
  }

  /** E-mail addresses and URLs are never substituted: whatever their patterns would do,
      the rewrite is the same. */
  lemma NeverEmailOrUrl(s1: Substitution, s2: Substitution, text: string)
    requires forall c, r, t :: c != Email && c != UrlCat ==> s1(c, r, t) == s2(c, r, t)
    ensures Rewrite(s1, Pipeline, text) == Rewrite(s2, Pipeline, text)
  {
    RewriteDependsOnSteps(s1, s2, Pipeline, text);
  }

  /** A text none of whose patterns match (every step leaves it unchanged) comes out as is. */
  lemma {:induction false} RewriteUnmatched(sub: Substitution, cs: seq<Category>, text: string)
    requires forall c :: c in cs ==> sub(c, Tag(c), text) == text
    ensures Rewrite(sub, cs, text) == text
  {
    if cs != [] {
      assert cs[0] in cs;
      assert forall c :: c in cs[1..] ==> c in cs;
      RewriteUnmatched(sub, cs[1..], text);
    }
  }
}
