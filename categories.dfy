/**
  * Categories: reference data shared by all users. Each has a globally
  * unique name and says whether it applies to income ('ingreso') or expense
  * ('gasto') movements. The listing endpoint filters them by that kind and
  * returns their ids and names in name order.
  */
module Categories {
  import opened Base
  import Sorting

  /** The enumeration `['ingreso', 'gasto']` shared by categories and transactions. */
  datatype Kind = Ingreso | Gasto

  function KindName(k: Kind): string
  {
    match k
    case Ingreso => "ingreso"
    case Gasto => "gasto"
  }

  /** The enum check: a string is a kind exactly when it is one of the two names. */
  function ParseKind(s: string): (r: Option<Kind>)
    ensures r.Some? ==> KindName(r.value) == s
    ensures r.None? ==> s != "ingreso" && s != "gasto"
  {
    if s == "ingreso" then Some(Ingreso)
    else if s == "gasto" then Some(Gasto)
    else None
  }

  lemma {:induction false} ParseKindName(k: Kind)
    ensures ParseKind(KindName(k)) == Some(k)
  {
    match k
    case Ingreso =>
    case Gasto =>
      assert KindName(k) != "ingreso" by {
        assert KindName(k)[0] == 'g';
      }
  }

  datatype Category = Category(id: Id, name: string, appliesTo: Kind)

  /**
    * A new category document: the name is required (an empty name fails
    * validation), `appliesTo` must be one of the two kinds and defaults to
    * 'gasto'. A failed validation is a server error.
    */
  function NewCategory(id: Id, name: string, appliesTo: Option<string>): (r: Result<Category>)
    ensures r.Ok? <==> name != "" && (appliesTo.None? || ParseKind(appliesTo.value).Some?)
    ensures r.Err? ==> r.status == INTERNAL_ERROR
    ensures r.Ok? ==> r.value.id == id && r.value.name == name
    ensures r.Ok? && appliesTo.None? ==> r.value.appliesTo == Gasto
    ensures r.Ok? && appliesTo.Some? ==> KindName(r.value.appliesTo) == appliesTo.value
  {
    if name == "" then Err(INTERNAL_ERROR, "Path `name` is required.")
    else
      match appliesTo
      case None => Ok(Category(id, name, Gasto))
      case Some(s) =>
        match ParseKind(s)
        case None => Err(INTERNAL_ERROR, "`appliesTo` is not a valid enum value.")
        case Some(k) => Ok(Category(id, name, k))
  }

  /** The unique index on `name`. */
  predicate UniqueNames(cats: seq<Category>)
  {
    forall i, j :: 0 <= i < j < |cats| ==> cats[i].name != cats[j].name
  }

  /** `$lookup` of a category id: the name of the category with that id, if one exists. */
  function NameOf(cats: seq<Category>, id: Option<Id>): (r: Option<string>)
    ensures r.Some? ==> id.Some? && exists k :: 0 <= k < |cats| && cats[k].id == id.value && cats[k].name == r.value
    ensures r.None? ==> id.None? || forall k :: 0 <= k < |cats| ==> cats[k].id != id.value
  {
    if id.None? then None
    else
      match FindIndex(cats, (c: Category) => c.id == id.value)
      case None => None
      case Some(k) => Some(cats[k].name)
  }

  /** String order of the database: code point by code point, a prefix first. */
  predicate NameLe(a: string, b: string)
  {
    if a == [] then true
    else if b == [] then false
    else if a[0] != b[0] then a[0] < b[0]
    else NameLe(a[1..], b[1..])
  }

  lemma {:induction false} NameLeTotal(a: string, b: string)
    ensures NameLe(a, b) || NameLe(b, a)
  {
    if a != [] && b != [] && a[0] == b[0] {
      NameLeTotal(a[1..], b[1..]);
    }
  }

  lemma {:induction false} NameLeTransitive(a: string, b: string, c: string)
    requires NameLe(a, b) && NameLe(b, c)
    ensures NameLe(a, c)
  {
    if a != [] && b != [] && c != [] && a[0] == b[0] && b[0] == c[0] {
      NameLeTransitive(a[1..], b[1..], c[1..]);
    }
  }

  lemma {:induction false} NameLeAntisymmetric(a: string, b: string)
    requires NameLe(a, b) && NameLe(b, a)
    ensures a == b
  {
    if a != [] && b != [] {
      NameLeAntisymmetric(a[1..], b[1..]);
      assert a == [a[0]] + a[1..] && b == [b[0]] + b[1..];
    }
  }

  /** What the listing returns of a category: `_id` and `name` only. */
  datatype CategoryRef = CategoryRef(id: Id, name: string)

  function ByName(): (le: (CategoryRef, CategoryRef) -> bool)
    ensures Sorting.IsTotalPreorder(le)
  {
    var le := (x: CategoryRef, y: CategoryRef) => NameLe(x.name, y.name);
    forall x: CategoryRef, y: CategoryRef
      ensures le(x, y) || le(y, x)
    {
      NameLeTotal(x.name, y.name);
    }
    forall x: CategoryRef, y: CategoryRef, z: CategoryRef | le(x, y) && le(y, z)
      ensures le(x, z)
    {
      NameLeTransitive(x.name, y.name, z.name);
    }
    le
  }

  /** `type ? { appliesTo: type } : {}`: no filter for an absent or empty type. */
  predicate Selected(c: Category, kind: Option<string>)
  {
    kind.None? || kind.value == "" || KindName(c.appliesTo) == kind.value
  }

  function Refs(cats: seq<Category>, kind: Option<string>): (r: seq<CategoryRef>)
    ensures forall x :: x in r <==> exists c :: c in cats && Selected(c, kind) && x == CategoryRef(c.id, c.name)
  {
    if cats == [] then []
    else
      var last := cats[|cats| - 1];
      var init := cats[..|cats| - 1];
      assert cats == init + [last];
      Refs(init, kind) + (if Selected(last, kind) then [CategoryRef(last.id, last.name)] else [])
  }

  /**
    * `listCategories`: the id and name of every category of the requested
    * kind (all of them when no kind is given), in name order.
    */
  function ListCategories(cats: seq<Category>, kind: Option<string>): (r: seq<CategoryRef>)
    ensures forall i, j :: 0 <= i < j < |r| ==> NameLe(r[i].name, r[j].name)
    ensures multiset(r) == multiset(Refs(cats, kind))
  {
    Sorting.SortBy(Refs(cats, kind), ByName())
  }

  /** A category is listed exactly when it is of the requested kind. */
  lemma ListedIff(cats: seq<Category>, kind: Option<string>, x: CategoryRef)
    ensures x in ListCategories(cats, kind) <==>
              exists c :: c in cats && Selected(c, kind) && x == CategoryRef(c.id, c.name)
  {
    var r := ListCategories(cats, kind);
    assert x in r <==> x in multiset(r);
    assert x in Refs(cats, kind) <==> x in multiset(Refs(cats, kind));
  }

  /** With no kind requested every category is listed. */
  lemma AllListedWithoutKind(cats: seq<Category>, c: Category)
    requires c in cats
    ensures CategoryRef(c.id, c.name) in ListCategories(cats, None)
  {
    ListedIff(cats, None, CategoryRef(c.id, c.name));
  }

  /** When names are unique the listing is strictly increasing by name. */
  lemma {:induction false} ListingStrictlyIncreasing(cats: seq<Category>, kind: Option<string>, i: nat, j: nat)
    requires UniqueNames(cats)
    requires i < j < |ListCategories(cats, kind)|
    ensures ListCategories(cats, kind)[i].name != ListCategories(cats, kind)[j].name
  {
    var r := ListCategories(cats, kind);
    assert r[i] in r && r[j] in r;
    ListedIff(cats, kind, r[i]);
    ListedIff(cats, kind, r[j]);
    var ci :| ci in cats && Selected(ci, kind) && r[i] == CategoryRef(ci.id, ci.name);
    var cj :| cj in cats && Selected(cj, kind) && r[j] == CategoryRef(cj.id, cj.name);
    if r[i].name == r[j].name {
      assert ci.name == cj.name;
      var a :| 0 <= a < |cats| && cats[a] == ci;
      var b :| 0 <= b < |cats| && cats[b] == cj;
      assert a == b;
      assert r[i] == r[j];
      RefsOccurOnce(cats, kind, r[i]);
      assert multiset(r)[r[i]] <= 1;
      MultisetTwoPositions(r, i, j);
    }
  }

  lemma MultisetTwoPositions<T>(s: seq<T>, i: nat, j: nat)
    requires i < j < |s| && s[i] == s[j]
    ensures multiset(s)[s[i]] >= 2
  {
    assert s == s[..j] + s[j..];
    assert s[i] in multiset(s[..j]);
    assert s[j] in multiset(s[j..]);
    assert multiset(s)[s[i]] == multiset(s[..j])[s[i]] + multiset(s[j..])[s[i]];
  }

  /** With unique names a reference is produced by one category only. */
  lemma {:induction false} RefsOccurOnce(cats: seq<Category>, kind: Option<string>, x: CategoryRef)
    requires UniqueNames(cats)
    ensures multiset(Refs(cats, kind))[x] <= 1
  {
    if cats != [] {
      var last := cats[|cats| - 1];
      var init := cats[..|cats| - 1];
      assert UniqueNames(init);
      RefsOccurOnce(init, kind, x);
      if Selected(last, kind) && x == CategoryRef(last.id, last.name) {
        assert forall a :: 0 <= a < |init| ==> init[a].name != last.name by {
          assert forall a :: 0 <= a < |init| ==> init[a] == cats[a];
        }
        assert x !in Refs(init, kind);
      }
    }
  }

  /** The categories the seed script inserts: distinct names, so the unique index accepts them. */
  function SeedCategories(): (cats: seq<Category>)
    ensures |cats| == 13
  {
    [ Category(0, "Alimentos", Gasto), Category(1, "Entretenimiento", Gasto),
      Category(2, "Comida Fuera", Gasto), Category(3, "Vivienda", Gasto),
      Category(4, "Transporte", Gasto), Category(5, "Salud", Gasto),
      Category(6, "Educación", Gasto), Category(7, "Otros", Gasto),
      Category(8, "Salario", Ingreso), Category(9, "Freelance", Ingreso),
      Category(10, "Inversiones", Ingreso), Category(11, "Ventas", Ingreso),
      Category(12, "Otros Ingresos", Ingreso) ]
  }

  lemma SeedNamesUnique()
    ensures UniqueNames(SeedCategories())
  {
  }
}
