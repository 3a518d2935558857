/** The recipe tokenizing pipeline: completeness filter, advertisement-free
    sentence tokenizer, corpus builder (with its transposed form), and the
    tabulizer that splits each body into ingredient pieces and instructions. */
module Recipes {
  import opened PyString

  datatype Result<T, E> = Success(value: T) | Failure(error: E)

  /** A value looked up under one key of a raw recipe record: the key may be
      missing, map to `None`, or map to a value. */
  datatype Field<T> = Absent | Null | Present(value: T)

  /** One raw recipe record (a value of the input mapping). The structured
      ingredient list is kept as the parser receives it. */
  datatype RawRecipe = RawRecipe(
    title: Field<string>,
    ingredients: Field<seq<string>>,
    instructions: Field<string>)

  /** The third-party capabilities the pipeline calls: the word tokenizer and
      the ingredient normalizer, which receives whatever is stored under the
      `ingredients` key (`None` included). */
  datatype Collaborators = Collaborators(
    wordTokenize: string -> seq<string>,
    parseIngredientList: Field<seq<string>> -> seq<string>)

  /** Looking up `r['ingredients']` for a record that lacks the key raises
      `KeyError`, which aborts the whole corpus build. */
  datatype Error = MissingIngredients

  /** One tokenized recipe: the tuple (tokenized title, tokenized body). */
  datatype TokenizedRecipe = TokenizedRecipe(title: string, body: string)

  // ---------------------------------------------------------------------
  // Completeness filter
  // ---------------------------------------------------------------------

  /** `recipe_is_complete`: first the two key tests, then the two `None` tests. */
  predicate RecipeIsComplete(r: RawRecipe)
    ensures RecipeIsComplete(r) <==> r.title.Present? && r.instructions.Present?
  {
    if r.title.Absent? || r.instructions.Absent? then false
    else if r.title.Null? || r.instructions.Null? then false
    else true
  }

  /** The record `{}`, the record `{"title": "A", "instructions": None}` and the
      record `{"title": "A", "instructions": "Mix."}`. */
  lemma CompletenessExamples()
    ensures !RecipeIsComplete(RawRecipe(Absent, Absent, Absent))
    ensures !RecipeIsComplete(RawRecipe(Present("A"), Absent, Null))
    ensures RecipeIsComplete(RawRecipe(Present("A"), Absent, Present("Mix.")))
  {
  }

  // ---------------------------------------------------------------------
  // Sentence tokenizer
  // ---------------------------------------------------------------------

  /** The line-17 test `x.lower() == "advertisement"`: only a 13-character
      token whose letters match `advertisement` up to ASCII case passes. */
  predicate IsAdvertisement(token: string)
    ensures IsAdvertisement(token) ==> |token| == 13
    ensures IsAdvertisement(token) ==> token[0] == 'a' || token[0] == 'A'
  {
    ToLower(token) == "advertisement"
  }

  /** The test ignores ASCII case. */
  lemma AdvertisementAnyCase()
    ensures IsAdvertisement("Advertisement") && IsAdvertisement("ADVERTISEMENT")
  {
  }

  lemma ExampleWordsKept()
    ensures !IsAdvertisement("Mix") && !IsAdvertisement("flour")
    ensures !IsAdvertisement("and") && !IsAdvertisement("water")
  {
  }

  /** `filter(lambda x: x.lower() != "advertisement", tokens)`. */
  function FilterAds(tokens: seq<string>): (kept: seq<string>)
    ensures |kept| <= |tokens|
    ensures forall i :: 0 <= i < |kept| ==> !IsAdvertisement(kept[i])
    decreases |tokens|
  {
    if tokens == [] then []
    else (if IsAdvertisement(tokens[0]) then [] else [tokens[0]]) + FilterAds(tokens[1..])
  }

  /** A token survives exactly when it was there and is not an advertisement. */
  lemma {:induction false} FilterAdsMembership(tokens: seq<string>, t: string)
    ensures t in FilterAds(tokens) <==> t in tokens && !IsAdvertisement(t)
    decreases |tokens|
  {
    if tokens != [] {
      FilterAdsMembership(tokens[1..], t);
      assert tokens == [tokens[0]] + tokens[1..];
    }
  }

  /** Filtering works piecewise, so survivors keep their relative order. */
  lemma {:induction false} FilterAdsAppend(a: seq<string>, b: seq<string>)
    ensures FilterAds(a + b) == FilterAds(a) + FilterAds(b)
    decreases |a|
  {
    if a == [] {
      assert a + b == b;
    } else {
      assert (a + b)[0] == a[0];
      assert (a + b)[1..] == a[1..] + b;
      FilterAdsAppend(a[1..], b);
    }
  }

  /** Without advertisement tokens nothing is dropped. */
  lemma {:induction false} FilterAdsKeepsClean(tokens: seq<string>)
    requires forall i :: 0 <= i < |tokens| ==> !IsAdvertisement(tokens[i])
    ensures FilterAds(tokens) == tokens
    decreases |tokens|
  {
    if tokens != [] {
      FilterAdsKeepsClean(tokens[1..]);
      assert [tokens[0]] + tokens[1..] == tokens;
    }
  }

  /** `tokenize_sentence`: the non-advertisement tokens joined by one space. */
  function TokenizeSentence(wordTokenize: string -> seq<string>, sentence: string): (joined: string)
    ensures FilterAds(wordTokenize(sentence)) == [] ==> joined == ""
    ensures FilterAds(wordTokenize(sentence)) != [] ==> FilterAds(wordTokenize(sentence))[0] <= joined
  {
    Join(" ", FilterAds(wordTokenize(sentence)))
  }

  /** When the surviving tokens hold no space and there is at least one,
      splitting the tokenized sentence on spaces recovers them exactly; none
      of them is an advertisement. */
  lemma TokenizeSentenceTokens(wordTokenize: string -> seq<string>, sentence: string)
    requires FilterAds(wordTokenize(sentence)) != []
    requires forall t :: t in wordTokenize(sentence) ==> ' ' !in t
    ensures Split(TokenizeSentence(wordTokenize, sentence), ' ') == FilterAds(wordTokenize(sentence))
    ensures forall t :: t in Split(TokenizeSentence(wordTokenize, sentence), ' ') ==> !IsAdvertisement(t)
  {
    var kept := FilterAds(wordTokenize(sentence));
    forall i | 0 <= i < |kept| ensures ' ' !in kept[i] {
      FilterAdsMembership(wordTokenize(sentence), kept[i]);
    }
    assert " " == [' '];
    SplitJoin(kept, ' ');
  }

  /** A tokenizer that yields `Mix`, `flour`, `Advertisement`, `and`, `water`
      (as for `"Mix flour Advertisement and water"`) gives `"Mix flour and water"`. */
  lemma TokenizeSentenceExample(wordTokenize: string -> seq<string>, sentence: string)
    requires wordTokenize(sentence) == ["Mix", "flour", "Advertisement", "and", "water"]
    ensures TokenizeSentence(wordTokenize, sentence) == "Mix flour and water"
  {
    var tokens := ["Mix", "flour", "Advertisement", "and", "water"];
    AdvertisementAnyCase();
    ExampleWordsKept();
    var kept := ["Mix", "flour", "and", "water"];
    assert FilterAds(tokens) == kept;
    assert kept[1..] == ["flour", "and", "water"] && kept[1..][1..] == ["and", "water"];
    assert kept[1..][1..][1..] == ["water"];
    assert Join(" ", ["and", "water"]) == "and water";
    assert Join(" ", ["flour", "and", "water"]) == "flour and water";
    assert Join(" ", kept) == "Mix flour and water";
  }

  // ---------------------------------------------------------------------
  // Corpus builder
  // ---------------------------------------------------------------------

  /** `'; '.join(normalized) + '; '`: always ends with `"; "`, even when the
      normalized ingredient list is empty. */
  function IngredientString(normalized: seq<string>): (s: string)
    ensures |s| >= 2 && s[|s| - 2..] == "; "
    ensures normalized == [] ==> s == "; "
    ensures normalized != [] ==> normalized[0] <= s
  {
    Join("; ", normalized) + "; "
  }

  /** A separator-free piece followed by `"; "` splits into the piece and `" "`.
      This and the next lemma describe the ingredient string as built at
      line 44, before it is tokenized; the tabulizer splits the tokenized body,
      whose pieces depend on the word tokenizer. */
  lemma SplitTrailing(p: string)
    requires ';' !in p
    ensures Split(p + "; ", ';') == [p, " "]
  {
    assert p + "; " == p + [';'] + " ";
    SplitAfterPiece(p, " ", ';');
    SplitNoSeparator(" ", ';');
  }

  /** With separator-free ingredients, the ingredient string splits on `';'`
      into one piece per ingredient plus a final `" "` (an empty list gives
      the two pieces `""` and `" "`); the first piece is the first ingredient. */
  lemma {:induction false} IngredientStringPieces(normalized: seq<string>)
    requires forall i :: 0 <= i < |normalized| ==> ';' !in normalized[i]
    ensures |Split(IngredientString(normalized), ';')| == if normalized == [] then 2 else |normalized| + 1
    ensures Split(IngredientString(normalized), ';')[|Split(IngredientString(normalized), ';')| - 1] == " "
    ensures Split(IngredientString(normalized), ';')[0] == if normalized == [] then "" else normalized[0]
    decreases |normalized|
  {
    if |normalized| <= 1 {
      var p := Join("; ", normalized);
      assert p == if normalized == [] then "" else normalized[0];
      SplitTrailing(p);
      assert IngredientString(normalized) == p + "; ";
    } else {
      var rest := normalized[1..];
      var tail := IngredientString(rest);
      IngredientStringPieces(rest);
      var whole := IngredientString(normalized);
      assert whole == normalized[0] + [';'] + ([' '] + tail) by {
        assert Join("; ", normalized) == normalized[0] + "; " + Join("; ", rest);
      }
      SplitAfterPiece(normalized[0], [' '] + tail, ';');
      var pt := Split(tail, ';');
      assert ([' '] + tail)[0] == ' ' && ([' '] + tail)[1..] == tail;
      assert Split([' '] + tail, ';') == [[' '] + pt[0]] + pt[1..];
    }
  }

  /** The pair emitted for one complete record: the title tokenized on its
      own, and a body that is the tokenized ingredient string immediately
      followed by the tokenized instructions, with nothing in between. */
  function TokenizeRecord(c: Collaborators, r: RawRecipe): (p: TokenizedRecipe)
    requires RecipeIsComplete(r)
    ensures p.title == TokenizeSentence(c.wordTokenize, r.title.value)
    ensures var ingredientTokens := TokenizeSentence(c.wordTokenize, IngredientString(c.parseIngredientList(r.ingredients)));
      |ingredientTokens| <= |p.body| &&
      p.body[..|ingredientTokens|] == ingredientTokens &&
      p.body[|ingredientTokens|..] == TokenizeSentence(c.wordTokenize, r.instructions.value)
  {
    var ingredients := IngredientString(c.parseIngredientList(r.ingredients));
    TokenizedRecipe(
      TokenizeSentence(c.wordTokenize, r.title.value),
      TokenizeSentence(c.wordTokenize, ingredients) + TokenizeSentence(c.wordTokenize, r.instructions.value))
  }

  /** The corpus the loop builds over `recipes`, taken in input order: skip
      incomplete records, fail on a complete one without `ingredients`. */
  function Corpus(c: Collaborators, recipes: seq<RawRecipe>): (result: Result<seq<TokenizedRecipe>, Error>)
    ensures result.Success? ==> |result.value| <= |recipes|
    decreases |recipes|
  {
    if recipes == [] then Success([])
    else
      match Corpus(c, recipes[..|recipes| - 1])
      case Failure(e) => Failure(e)
      case Success(acc) =>
        var r := recipes[|recipes| - 1];
        if !RecipeIsComplete(r) then Success(acc)
        else if r.ingredients.Absent? then Failure(MissingIngredients)
        else Success(acc + [TokenizeRecord(c, r)])
  }

  /** The complete records, in input order (an independent filter). */
  function Kept(recipes: seq<RawRecipe>): (kept: seq<RawRecipe>)
    ensures |kept| <= |recipes|
    ensures forall i :: 0 <= i < |kept| ==> RecipeIsComplete(kept[i])
    decreases |recipes|
  {
    if recipes == [] then []
    else (if RecipeIsComplete(recipes[0]) then [recipes[0]] else []) + Kept(recipes[1..])
  }

  /** A record is kept exactly when it occurs in the input and is complete. */
  lemma {:induction false} KeptMembership(recipes: seq<RawRecipe>, r: RawRecipe)
    ensures r in Kept(recipes) <==> r in recipes && RecipeIsComplete(r)
    decreases |recipes|
  {
    if recipes != [] {
      KeptMembership(recipes[1..], r);
      assert recipes == [recipes[0]] + recipes[1..];
    }
  }

  /** Every complete record carries an `ingredients` key. */
  predicate IngredientsPresent(recipes: seq<RawRecipe>) {
    forall k :: 0 <= k < |recipes| && RecipeIsComplete(recipes[k]) ==> !recipes[k].ingredients.Absent?
  }

  /** Filtering complete records works piecewise. */
  lemma {:induction false} KeptAppend(a: seq<RawRecipe>, b: seq<RawRecipe>)
    ensures Kept(a + b) == Kept(a) + Kept(b)
    decreases |a|
  {
    if a == [] {
      assert a + b == b;
    } else {
      assert (a + b)[0] == a[0];
      assert (a + b)[1..] == a[1..] + b;
      KeptAppend(a[1..], b);
    }
  }

  /** No record is kept exactly when none is complete. */
  lemma {:induction false} KeptEmpty(recipes: seq<RawRecipe>)
    ensures Kept(recipes) == [] <==> forall k :: 0 <= k < |recipes| ==> !RecipeIsComplete(recipes[k])
    decreases |recipes|
  {
    if recipes != [] {
      KeptEmpty(recipes[1..]);
      assert forall k :: 1 <= k < |recipes| ==> recipes[k] == recipes[1..][k - 1];
    }
  }

  /** The corpus is "filter, then tokenize each": it succeeds exactly when
      every complete record has `ingredients`, and then holds one pair per
      complete record, in input order. */
  lemma {:induction false} CorpusIsFilterThenMap(c: Collaborators, recipes: seq<RawRecipe>)
    ensures Corpus(c, recipes).Success? <==> IngredientsPresent(recipes)
    ensures Corpus(c, recipes).Success? ==>
      |Corpus(c, recipes).value| == |Kept(recipes)| &&
      forall i :: 0 <= i < |Kept(recipes)| ==> Corpus(c, recipes).value[i] == TokenizeRecord(c, Kept(recipes)[i])
    decreases |recipes|
  {
    if recipes != [] {
      var n := |recipes| - 1;
      var init, r := recipes[..n], recipes[n];
      assert recipes == init + [r];
      CorpusIsFilterThenMap(c, init);
      KeptAppend(init, [r]);
      assert Kept([r]) == (if RecipeIsComplete(r) then [r] else []) + Kept([]);
      assert forall k :: 0 <= k < n ==> recipes[k] == init[k];
      if IngredientsPresent(recipes) {
        assert IngredientsPresent(init);
      }
    }
  }

  /** Once a prefix fails, the whole corpus fails. */
  lemma {:induction false} CorpusFailurePersists(c: Collaborators, recipes: seq<RawRecipe>, k: nat)
    requires k <= |recipes|
    requires Corpus(c, recipes[..k]).Failure?
    ensures Corpus(c, recipes) == Failure(MissingIngredients)
    decreases |recipes|
  {
    if k == |recipes| {
      assert recipes[..k] == recipes;
      assert Corpus(c, recipes).error.MissingIngredients?;
    } else {
      var init := recipes[..|recipes| - 1];
      assert init[..k] == recipes[..k];
      CorpusFailurePersists(c, init, k);
    }
  }

  /** For records A (complete), B (incomplete), C (complete), the corpus is
      the pair of A followed by the pair of C. */
  lemma CorpusSkipsIncomplete(c: Collaborators, a: RawRecipe, b: RawRecipe, d: RawRecipe)
    requires RecipeIsComplete(a) && !a.ingredients.Absent?
    requires !RecipeIsComplete(b)
    requires RecipeIsComplete(d) && !d.ingredients.Absent?
    ensures Corpus(c, [a, b, d]) == Success([TokenizeRecord(c, a), TokenizeRecord(c, d)])
  {
    var rs := [a, b, d];
    assert rs[1..] == [b, d] && [b, d][1..] == [d] && [d][1..] == [];
    assert Kept([d]) == [d];
    assert Kept([b, d]) == [d];
    assert Kept(rs) == [a, d];
    assert IngredientsPresent(rs);
    CorpusIsFilterThenMap(c, rs);
    var v := Corpus(c, rs).value;
    assert |v| == 2 && v[0] == TokenizeRecord(c, a) && v[1] == TokenizeRecord(c, d);
    assert v == [TokenizeRecord(c, a), TokenizeRecord(c, d)];
  }

  /** `get_tokenized`: the loop over `recipes.values()` that appends one pair
      per complete record. */
  method GetTokenized(c: Collaborators, recipes: seq<RawRecipe>)
    returns (result: Result<seq<TokenizedRecipe>, Error>)
    ensures result == Corpus(c, recipes)
    ensures result.Success? <==> IngredientsPresent(recipes)
    ensures result.Success? ==> |result.value| == |Kept(recipes)|
    ensures result.Success? ==>
      forall i :: 0 <= i < |Kept(recipes)| ==> result.value[i] == TokenizeRecord(c, Kept(recipes)[i])
  {
    CorpusIsFilterThenMap(c, recipes);
    var tokenized: seq<TokenizedRecipe> := [];
    var i := 0;
    while i < |recipes|
      invariant 0 <= i <= |recipes|
      invariant Corpus(c, recipes[..i]) == Success(tokenized)
    {
      var r := recipes[i];
      assert recipes[..i + 1][..i] == recipes[..i];
      if RecipeIsComplete(r) {
        if r.ingredients.Absent? {
          CorpusFailurePersists(c, recipes, i + 1);
          return Failure(MissingIngredients);
        }
        tokenized := tokenized + [TokenizeRecord(c, r)];
      }
      i := i + 1;
    }
    assert recipes[..i] == recipes;
    result := Success(tokenized);
  }

  // ---------------------------------------------------------------------
  // Transposition: tuple(map(list, zip(*tokenized)))
  // ---------------------------------------------------------------------

  /** `zip(*[])` is the empty tuple; otherwise the two lists of components. */
  datatype Transposed = EmptyTuple | Lists(titles: seq<string>, bodies: seq<string>)

  function Unzip(pairs: seq<TokenizedRecipe>): (t: Transposed)
    ensures t.EmptyTuple? <==> pairs == []
    ensures t.Lists? ==> |t.titles| == |pairs| && |t.bodies| == |pairs|
    ensures t.Lists? ==> forall i :: 0 <= i < |pairs| ==>
      t.titles[i] == pairs[i].title && t.bodies[i] == pairs[i].body
    decreases |pairs|
  {
    if pairs == [] then EmptyTuple
    else
      match Unzip(pairs[1..])
      case EmptyTuple => Lists([pairs[0].title], [pairs[0].body])
      case Lists(ts, bs) => Lists([pairs[0].title] + ts, [pairs[0].body] + bs)
  }

  /** Pairs the two lists back up (`list(zip(titles, bodies))`). */
  function Zip(titles: seq<string>, bodies: seq<string>): seq<TokenizedRecipe>
    requires |titles| == |bodies|
    decreases |titles|
  {
    if titles == [] then [] else [TokenizedRecipe(titles[0], bodies[0])] + Zip(titles[1..], bodies[1..])
  }

  /** Zipping the transposed lists restores the pairs. */
  lemma {:induction false} ZipUnzip(pairs: seq<TokenizedRecipe>)
    requires pairs != []
    ensures Unzip(pairs).Lists? && Zip(Unzip(pairs).titles, Unzip(pairs).bodies) == pairs
    decreases |pairs|
  {
    if |pairs| > 1 {
      ZipUnzip(pairs[1..]);
      assert [pairs[0]] + pairs[1..] == pairs;
    }
  }

  /** Transposing two aligned non-empty lists after zipping restores them. */
  lemma {:induction false} UnzipZip(titles: seq<string>, bodies: seq<string>)
    requires |titles| == |bodies| && titles != []
    ensures Unzip(Zip(titles, bodies)) == Lists(titles, bodies)
    decreases |titles|
  {
    var z := Zip(titles, bodies);
    assert z == [TokenizedRecipe(titles[0], bodies[0])] + Zip(titles[1..], bodies[1..]);
    assert z[1..] == Zip(titles[1..], bodies[1..]);
    assert [titles[0]] + titles[1..] == titles;
    assert [bodies[0]] + bodies[1..] == bodies;
    if |titles| > 1 {
      UnzipZip(titles[1..], bodies[1..]);
      assert Unzip(z[1..]) == Lists(titles[1..], bodies[1..]);
    } else {
      assert z[1..] == [];
    }
  }

  /** `tokenize_recipes`: the same loop as `get_tokenized`, then the
      transposition into parallel title and body lists. */
  method TokenizeRecipes(c: Collaborators, recipes: seq<RawRecipe>)
    returns (result: Result<Transposed, Error>)
    ensures result.Success? <==> Corpus(c, recipes).Success?
    ensures result.Success? ==> result.value == Unzip(Corpus(c, recipes).value)
    ensures result.Success? ==>
      (result.value.EmptyTuple? <==> forall k :: 0 <= k < |recipes| ==> !RecipeIsComplete(recipes[k]))
  {
    var tokenized: seq<TokenizedRecipe> := [];
    var i := 0;
    while i < |recipes|
      invariant 0 <= i <= |recipes|
      invariant Corpus(c, recipes[..i]) == Success(tokenized)
    {
      var r := recipes[i];
      assert recipes[..i + 1][..i] == recipes[..i];
      if RecipeIsComplete(r) {
        if r.ingredients.Absent? {
          CorpusFailurePersists(c, recipes, i + 1);
          return Failure(MissingIngredients);
        }
        tokenized := tokenized + [TokenizeRecord(c, r)];
      }
      i := i + 1;
    }
    assert recipes[..i] == recipes;
    CorpusIsFilterThenMap(c, recipes);
    KeptEmpty(recipes);
    result := Success(Unzip(tokenized));
  }

  // ---------------------------------------------------------------------
  // Tabulizer
  // ---------------------------------------------------------------------

  const SeparatorToken: string := "</>separator</>"

  /** The columns of the data frame `make_dataframe` builds. */
  datatype RecipeTable = RecipeTable(
    title: seq<string>,
    ingredients: seq<seq<string>>,
    instructions: seq<string>,
    separator: seq<string>)

  /** `make_dataframe`: copy the titles, split each body on `';'`, put the
      last piece in `instructions` and the others in `ingredients`, and
      broadcast the separator constant. */
  method MakeDataframe(tokenized: seq<TokenizedRecipe>) returns (df: RecipeTable)
    ensures |df.title| == |tokenized| && |df.ingredients| == |tokenized|
    ensures |df.instructions| == |tokenized| && |df.separator| == |tokenized|
    ensures forall i :: 0 <= i < |tokenized| ==> df.title[i] == tokenized[i].title
    ensures forall i :: 0 <= i < |tokenized| ==>
      df.ingredients[i] + [df.instructions[i]] == Split(tokenized[i].body, ';')
    ensures forall i :: 0 <= i < |tokenized| ==>
      Join(";", df.ingredients[i] + [df.instructions[i]]) == tokenized[i].body
    ensures forall i :: 0 <= i < |tokenized| && ';' !in tokenized[i].body ==>
      df.ingredients[i] == [] && df.instructions[i] == tokenized[i].body
    ensures forall i :: 0 <= i < |tokenized| ==> df.separator[i] == SeparatorToken
  {
    var n := |tokenized|;

    var titles: seq<string> := [];
    for i := 0 to n
      invariant |titles| == i
      invariant forall k :: 0 <= k < i ==> titles[k] == tokenized[k].title
    {
      titles := titles + [tokenized[i].title];
    }

    var bodies: seq<string> := [];
    for i := 0 to n
      invariant |bodies| == i
      invariant forall k :: 0 <= k < i ==> bodies[k] == tokenized[k].body
    {
      bodies := bodies + [tokenized[i].body];
    }

    var lists: seq<seq<string>> := [];
    for i := 0 to n
      invariant |lists| == i
      invariant forall k :: 0 <= k < i ==> lists[k] == Split(bodies[k], ';')
    {
      lists := lists + [Split(bodies[i], ';')];
    }

    var instructions: seq<string> := [];
    var ingredients: seq<seq<string>> := [];
    for i := 0 to n
      invariant |instructions| == i && |ingredients| == i
      invariant forall k :: 0 <= k < i ==> ingredients[k] + [instructions[k]] == lists[k]
    {
      var pieces := lists[i];
      instructions := instructions + [pieces[|pieces| - 1]];
      ingredients := ingredients + [pieces[..|pieces| - 1]];
    }

    df := RecipeTable(titles, ingredients, instructions, seq(n, _ => SeparatorToken));

    forall i | 0 <= i < n
      ensures Join(";", df.ingredients[i] + [df.instructions[i]]) == tokenized[i].body
      ensures ';' !in tokenized[i].body ==> df.ingredients[i] == [] && df.instructions[i] == tokenized[i].body
    {
      assert ";" == [';'];
      JoinSplit(tokenized[i].body, ';');
      if ';' !in tokenized[i].body {
        SplitNoSeparator(tokenized[i].body, ';');
      }
    }
  }

  /** A body with two `';'` splits into exactly the three pieces around them,
      untrimmed: `"flour; sugar; Mix well"` gives `"flour"`, `" sugar"` and
      `" Mix well"`. */
  lemma SplitThreePieces(a: string, b: string, d: string)
    requires ';' !in a && ';' !in b && ';' !in d
    ensures Split(a + ";" + b + ";" + d, ';') == [a, b, d]
  {
    assert a + ";" + b + ";" + d == a + [';'] + (b + [';'] + d);
    SplitAfterPiece(a, b + [';'] + d, ';');
    SplitAfterPiece(b, d, ';');
    SplitNoSeparator(d, ';');
  }

  /** `"flour; sugar; Mix well".split(';')` is `["flour", " sugar", " Mix well"]`. */
  lemma SplitBodyExample()
    ensures Split("flour; sugar; Mix well", ';') == ["flour", " sugar", " Mix well"]
  {
    assert "flour; sugar; Mix well" == "flour" + ";" + " sugar" + ";" + " Mix well";
    SplitThreePieces("flour", " sugar", " Mix well");
  }

  /** The body `"Mix well"` has no `';'`: it is one piece, so it becomes the
      instructions and the ingredients are empty. */
  lemma SplitNoSemicolonExample()
    ensures Split("Mix well", ';') == ["Mix well"]
    ensures Split("Mix well", ';')[..0] == [] && Split("Mix well", ';')[0] == "Mix well"
  {
    SplitNoSeparator("Mix well", ';');
  }
}
