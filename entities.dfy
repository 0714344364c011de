/**
 * The four entities whose associations are maintained in memory: Recipe,
 * Category, Tag and Comment. They refer to one another, so they share one
 * module. Each collection is a sequence of object references updated in
 * place; `in` compares identity, like Doctrine's `contains`.
 *
 * PHP `null`, and a typed property that was never assigned, are both
 * `None` (or a `null` reference). Getters are plain field reads here: the
 * fields are read directly.
 */
module Entities {
  import opened Wrappers
  import opened Collections
  import Users

  /** A point in time; only its order matters. */
  type Timestamp = nat

  /**
   * The two sides of Category-Recipe agree for the given objects: each
   * category's list has no duplicates, and a recipe is listed by a category
   * exactly when its `category` points at it.
   */
  ghost predicate CategoryLinks(cs: set<Category>, rs: set<Recipe>)
    reads cs, rs
  {
    && (forall c | c in cs :: NoDuplicates(c.recipes))
    && (forall c, r | c in cs && r in rs :: r in c.recipes <==> r.category == c)
  }

  /** The same agreement for Recipe-Comment. */
  ghost predicate CommentLinks(rs: set<Recipe>, cs: set<Comment>)
    reads rs, cs
  {
    && (forall r | r in rs :: NoDuplicates(r.comments))
    && (forall r, c | r in rs && c in cs :: c in r.comments <==> c.recipe == r)
  }

  /** The same agreement for the many-to-many Tag-Recipe. */
  ghost predicate TagLinks(ts: set<Tag>, rs: set<Recipe>)
    reads ts, rs
  {
    && (forall t | t in ts :: NoDuplicates(t.recipes))
    && (forall r | r in rs :: NoDuplicates(r.tags))
    && (forall t, r | t in ts && r in rs :: r in t.recipes <==> t in r.tags)
  }

  class Category {
    var id: Option<nat>
    var createdAt: Option<Timestamp>
    var updatedAt: Option<Timestamp>
    var name: Option<string>
    /** Inverse side of Recipe.category. */
    var recipes: seq<Recipe>

    constructor()
      ensures id == None && createdAt == None && updatedAt == None && name == None
      ensures recipes == []
    {
      id := None;
      createdAt := None;
      updatedAt := None;
      name := None;
      recipes := [];
    }

    /** Assert\NotBlank on the name: neither null nor the empty string. */
    predicate NameNotBlank()
      reads this
    {
      name.Some? && name.value != ""
    }

    method SetCreatedAt(createdAt: Timestamp)
      modifies this`createdAt
      ensures this.createdAt == Some(createdAt)
    {
      this.createdAt := Some(createdAt);
    }

    method SetUpdatedAt(updatedAt: Timestamp)
      modifies this`updatedAt
      ensures this.updatedAt == Some(updatedAt)
    {
      this.updatedAt := Some(updatedAt);
    }

    method SetName(name: string)
      modifies this`name
      ensures this.name == Some(name)
      ensures NameNotBlank() <==> name != ""
    {
      this.name := Some(name);
    }

    /**
     * Lists `recipe` and points it at this category, unless it is listed
     * already. The recipe's former category is not told.
     */
    method AddRecipe(recipe: Recipe)
      modifies this`recipes, recipe`category
      ensures recipes == Add(old(recipes), recipe)
      ensures recipe.category == if recipe in old(recipes) then old(recipe.category) else this
      ensures forall cs: set<Category>, rs: set<Recipe>
        | old(allocated(cs)) && old(allocated(rs)) && old(CategoryLinks(cs, rs))
          && (old(recipe.category) == null || old(recipe.category) == this)
        :: CategoryLinks(cs, rs)
    {
      if recipe !in recipes {
        recipes := recipes + [recipe];
        recipe.SetCategory(this);
      }
    }

    /**
     * Unlists `recipe` if it is listed, and then clears its category only
     * when that still points at this category.
     */
    method RemoveRecipe(recipe: Recipe)
      modifies this`recipes, recipe`category
      ensures recipes == RemoveElement(old(recipes), recipe)
      ensures recipe.category
           == if recipe in old(recipes) && old(recipe.category) == this then null else old(recipe.category)
      ensures forall cs: set<Category>, rs: set<Recipe>
        | old(allocated(cs)) && old(allocated(rs)) && old(CategoryLinks(cs, rs))
        :: CategoryLinks(cs, rs)
    {
      if recipe in recipes {
        recipes := RemoveElement(recipes, recipe);
        if recipe.category == this {
          recipe.SetCategory(null);
        }
      }
      forall cs: set<Category>, rs: set<Recipe>
        | old(allocated(cs)) && old(allocated(rs)) && old(CategoryLinks(cs, rs))
        ensures CategoryLinks(cs, rs)
      {
        if this in cs {
          RemoveFromSet(old(recipes), recipe);
        }
      }
    }
  }

  class Tag {
    var id: Option<nat>
    var title: Option<string>
    /** Inverse side of Recipe.tags. */
    var recipes: seq<Recipe>

    constructor()
      ensures id == None && title == None && recipes == []
    {
      id := None;
      title := None;
      recipes := [];
    }

    method SetTitle(title: string)
      modifies this`title
      ensures this.title == Some(title)
    {
      this.title := Some(title);
    }

    /** Lists `recipe` and tags it with this tag, unless it is listed already. */
    method AddRecipe(recipe: Recipe)
      modifies this`recipes, recipe`tags
      ensures recipes == Add(old(recipes), recipe)
      ensures recipe.tags == if recipe in old(recipes) then old(recipe.tags) else Add(old(recipe.tags), this)
      ensures forall ts: set<Tag>, rs: set<Recipe>
        | old(allocated(ts)) && old(allocated(rs)) && old(TagLinks(ts, rs))
        :: TagLinks(ts, rs)
    {
      if recipe !in recipes {
        recipes := recipes + [recipe];
        recipe.AddTag(this);
      }
    }

    /** Unlists `recipe` and removes this tag from it, if it is listed. */
    method RemoveRecipe(recipe: Recipe)
      modifies this`recipes, recipe`tags
      ensures recipes == RemoveElement(old(recipes), recipe)
      ensures recipe.tags == if recipe in old(recipes) then RemoveElement(old(recipe.tags), this) else old(recipe.tags)
      ensures forall ts: set<Tag>, rs: set<Recipe>
        | old(allocated(ts)) && old(allocated(rs)) && old(TagLinks(ts, rs))
        :: TagLinks(ts, rs)
    {
      if recipe in recipes {
        recipes := RemoveElement(recipes, recipe);
        recipe.RemoveTag(this);
      }
      forall ts: set<Tag>, rs: set<Recipe>
        | old(allocated(ts)) && old(allocated(rs)) && old(TagLinks(ts, rs))
        ensures TagLinks(ts, rs)
      {
        if this in ts {
          RemoveFromSet(old(recipes), recipe);
        }
        if recipe in rs {
          RemoveFromSet(old(recipe.tags), this);
        }
      }
    }
  }

  class Recipe {
    var id: Option<nat>
    var title: Option<string>
    /** Owning side of the many-to-one link to Category. */
    var category: Category?
    var createdAt: Option<Timestamp>
    var updatedAt: Option<Timestamp>
    /** Owning side of the many-to-many link to Tag. */
    var tags: seq<Tag>
    /** Inverse side of Comment.recipe. */
    var comments: seq<Comment>
    var time: Option<Timestamp>
    var difficulty: Option<string>
    var portion: Option<int>
    var calories: Option<int>
    var content: Option<string>
    var author: Users.User?

    constructor()
      ensures id == None && title == None && category == null
      ensures createdAt == None && updatedAt == None
      ensures tags == [] && comments == []
      ensures time == None && difficulty == None && portion == None && calories == None
      ensures content == None && author == null
    {
      id := None;
      title := None;
      category := null;
      createdAt := None;
      updatedAt := None;
      tags := [];
      comments := [];
      time := None;
      difficulty := None;
      portion := None;
      calories := None;
      content := None;
      author := null;
    }

    /** Assert\Length(min: 3, max: 64) on the title; a null title is not checked. */
    predicate TitleLengthValid()
      reads this
    {
      title.None? || 3 <= |title.value| <= 64
    }

    /** `__toString`: the title; `None` stands for the error PHP raises on a null title. */
    function ToString(): (s: Option<string>)
      reads this
    {
      title
    }

    method SetTitle(title: string)
      modifies this`title
      ensures this.title == Some(title)
      ensures ToString() == Some(title)
      ensures TitleLengthValid() <==> 3 <= |title| <= 64
    {
      this.title := Some(title);
    }

    method SetAuthor(author: Users.User?)
      modifies this`author
      ensures this.author == author
    {
      this.author := author;
    }

    method SetCategory(category: Category?)
      modifies this`category
      ensures this.category == category
    {
      this.category := category;
    }

    method SetCreatedAt(createdAt: Timestamp)
      modifies this`createdAt
      ensures this.createdAt == Some(createdAt)
    {
      this.createdAt := Some(createdAt);
    }

    method SetUpdatedAt(updatedAt: Timestamp)
      modifies this`updatedAt
      ensures this.updatedAt == Some(updatedAt)
    {
      this.updatedAt := Some(updatedAt);
    }

    method SetTime(time: Option<Timestamp>)
      modifies this`time
      ensures this.time == time
    {
      this.time := time;
    }

    method SetDifficulty(difficulty: Option<string>)
      modifies this`difficulty
      ensures this.difficulty == difficulty
    {
      this.difficulty := difficulty;
    }

    method SetPortion(portion: Option<int>)
      modifies this`portion
      ensures this.portion == portion
    {
      this.portion := portion;
    }

    method SetCalories(calories: Option<int>)
      modifies this`calories
      ensures this.calories == calories
    {
      this.calories := calories;
    }

    method SetContent(content: Option<string>)
      modifies this`content
      ensures this.content == content
    {
      this.content := content;
    }

    /** Appends `tag` unless it is present. Does not touch the tag's side. */
    method AddTag(tag: Tag)
      modifies this`tags
      ensures tags == Add(old(tags), tag)
    {
      if tag !in tags {
        tags := tags + [tag];
      }
    }

    /** Drops `tag` if it is present. Does not touch the tag's side. */
    method RemoveTag(tag: Tag)
      modifies this`tags
      ensures tags == RemoveElement(old(tags), tag)
    {
      if tag in tags {
        tags := RemoveElement(tags, tag);
      }
    }

    /** Lists `comment` and points it at this recipe, unless it is listed already. */
    method AddComment(comment: Comment)
      modifies this`comments, comment`recipe
      ensures comments == Add(old(comments), comment)
      ensures comment.recipe == if comment in old(comments) then old(comment.recipe) else this
      ensures forall rs: set<Recipe>, cs: set<Comment>
        | old(allocated(rs)) && old(allocated(cs)) && old(CommentLinks(rs, cs))
          && (old(comment.recipe) == null || old(comment.recipe) == this)
        :: CommentLinks(rs, cs)
    {
      if comment !in comments {
        comments := comments + [comment];
        comment.SetRecipe(this);
      }
    }

    /**
     * Unlists `comment` if it is listed, and then clears its recipe only when
     * that still points at this recipe.
     */
    method RemoveComment(comment: Comment)
      modifies this`comments, comment`recipe
      ensures comments == RemoveElement(old(comments), comment)
      ensures comment.recipe
           == if comment in old(comments) && old(comment.recipe) == this then null else old(comment.recipe)
      ensures forall rs: set<Recipe>, cs: set<Comment>
        | old(allocated(rs)) && old(allocated(cs)) && old(CommentLinks(rs, cs))
        :: CommentLinks(rs, cs)
    {
      // removeElement reports whether the element was found
      var found := comment in comments;
      comments := RemoveElement(comments, comment);
      if found {
        if comment.recipe == this {
          comment.SetRecipe(null);
        }
      }
      forall rs: set<Recipe>, cs: set<Comment>
        | old(allocated(rs)) && old(allocated(cs)) && old(CommentLinks(rs, cs))
        ensures CommentLinks(rs, cs)
      {
        if this in rs {
          RemoveFromSet(old(comments), comment);
        }
      }
    }
  }

  class Comment {
    var id: Option<nat>
    var createdAt: Option<Timestamp>
    var updatedAt: Option<Timestamp>
    var author: Users.User?
    /** Owning side of the many-to-one link to Recipe. */
    var recipe: Recipe?
    var content: Option<string>

    constructor()
      ensures id == None && createdAt == None && updatedAt == None
      ensures author == null && recipe == null && content == None
    {
      id := None;
      createdAt := None;
      updatedAt := None;
      author := null;
      recipe := null;
      content := None;
    }

    /** Assert\Length(min: 3, max: 255) on the content; a null content is not checked. */
    predicate ContentLengthValid()
      reads this
    {
      content.None? || 3 <= |content.value| <= 255
    }

    /** The non-nullable join columns: a stored comment has an author and a recipe. */
    predicate HasRequiredLinks()
      reads this
    {
      author != null && recipe != null
    }

    method SetCreatedAt(createdAt: Timestamp)
      modifies this`createdAt
      ensures this.createdAt == Some(createdAt)
    {
      this.createdAt := Some(createdAt);
    }

    method SetUpdatedAt(updatedAt: Timestamp)
      modifies this`updatedAt
      ensures this.updatedAt == Some(updatedAt)
    {
      this.updatedAt := Some(updatedAt);
    }

    method SetAuthor(author: Users.User?)
      modifies this`author
      ensures this.author == author
      ensures HasRequiredLinks() <==> author != null && recipe != null
    {
      this.author := author;
    }

    method SetRecipe(recipe: Recipe?)
      modifies this`recipe
      ensures this.recipe == recipe
      ensures HasRequiredLinks() <==> author != null && recipe != null
    {
      this.recipe := recipe;
    }

    method SetContent(content: string)
      modifies this`content
      ensures this.content == Some(content)
      ensures ContentLengthValid() <==> 3 <= |content| <= 255
    {
      this.content := Some(content);
    }
  }
}
