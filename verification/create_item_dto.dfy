/**
 The request body for creating or updating an item, and the bean-validation
 constraints declared on its fields. The create endpoint validates the body
 before the service sees it; the update endpoint does not.
 */
module CreateItemDtoConstraints {
  import opened StoreModel

  const NAME_MIN_LENGTH: nat := 1
  const NAME_MAX_LENGTH: nat := 255

  /** A request body; `None` stands for a null (or absent) JSON field. */
  datatype CreateItemDto = CreateItemDto(name: Option<string>, price: Option<real>, quantity: Option<int>)

  /** The first code point outside the Basic Multilingual Plane. */
  const SUPPLEMENTARY_MIN: int := 0x1_0000

  /**
   `String.length()` of a name: its length in UTF-16 code units, where a
   character outside the Basic Multilingual Plane takes a surrogate pair.
   */
  function Utf16Length(s: string): (n: nat)
    ensures |s| <= n <= 2 * |s|
  {
    if s == [] then 0
    else (if s[0] as int >= SUPPLEMENTARY_MIN then 2 else 1) + Utf16Length(s[1..])
  }

  /** A name made only of Basic Multilingual Plane characters has one unit per character. */
  lemma {:induction false} Utf16LengthOfBmp(s: string)
    requires forall i :: 0 <= i < |s| ==> (s[i] as int) < SUPPLEMENTARY_MIN
    ensures Utf16Length(s) == |s|
  {
    if s != [] {
      Utf16LengthOfBmp(s[1..]);
    }
  }

  /** A name made only of supplementary characters has two units per character. */
  lemma {:induction false} Utf16LengthOfSupplementary(s: string)
    requires forall i :: 0 <= i < |s| ==> (s[i] as int) >= SUPPLEMENTARY_MIN
    ensures Utf16Length(s) == 2 * |s|
  {
    if s != [] {
      Utf16LengthOfSupplementary(s[1..]);
    }
  }

  /** `@NotNull @Size(min = 1, max = 255)` on the name, counted as `String.length()`. */
  predicate NameValid(name: Option<string>) {
    name.Some? && NAME_MIN_LENGTH <= Utf16Length(name.value) <= NAME_MAX_LENGTH
  }

  /** `@NotNull @Min(0)` on the price. */
  predicate PriceValid(price: Option<real>) {
    price.Some? && price.value >= 0.0
  }

  /** `@NotNull @Min(0)` on the quantity. */
  predicate QuantityValid(quantity: Option<int>) {
    quantity.Some? && quantity.value >= 0
  }

  /** The body passes `@Valid` exactly when every field constraint holds. */
  predicate Valid(dto: CreateItemDto)
    ensures Valid(dto) ==>
      && dto.name.Some? && NAME_MIN_LENGTH <= Utf16Length(dto.name.value) <= NAME_MAX_LENGTH
      && dto.price.Some? && dto.price.value >= 0.0
      && dto.quantity.Some? && dto.quantity.value >= 0
  {
    NameValid(dto.name) && PriceValid(dto.price) && QuantityValid(dto.quantity)
  }

  /** No field is null: the only shape the not-null columns of the item table accept. */
  predicate Complete(dto: CreateItemDto) {
    dto.name.Some? && dto.price.Some? && dto.quantity.Some?
  }

  /**
   The item row a validated request creates: the field mapping copies name,
   price and quantity, and a new row starts out not deleted.
   */
  function NewItem(dto: CreateItemDto): (item: Item)
    requires Valid(dto)
    ensures !item.deleted
    ensures NAME_MIN_LENGTH <= Utf16Length(item.name) <= NAME_MAX_LENGTH
    ensures item.price >= 0.0 && item.quantity >= 0
    ensures Some(item.name) == dto.name && Some(item.price) == dto.price && Some(item.quantity) == dto.quantity
  {
    Item(dto.name.value, dto.price.value, dto.quantity.value, false)
  }

  /** Validity implies every field is present. */
  lemma ValidIsComplete(dto: CreateItemDto)
    requires Valid(dto)
    ensures Complete(dto)
  {
  }

  /** A name of `n` copies of one letter from the Basic Multilingual Plane. */
  function Name(n: nat): (name: string)
    ensures |name| == n && Utf16Length(name) == n
  {
    var name := seq(n, _ => 'a');
    Utf16LengthOfBmp(name);
    name
  }

  /** A name of `n` copies of U+1F600, a character outside the Basic Multilingual Plane. */
  function AstralName(n: nat): (name: string)
    ensures |name| == n && Utf16Length(name) == 2 * n
  {
    var name := seq(n, _ => '\U{1F600}');
    Utf16LengthOfSupplementary(name);
    name
  }

  /**
   The bounds of each constraint are inclusive, and the name is measured in
   UTF-16 units: 1 and 255 units are accepted, 0 and 256 rejected, so 127
   supplementary characters pass and 128 do not. Price 0 and quantity 0 are
   accepted; a negative price or quantity, and a null in any field, are
   rejected.
   */
  lemma ValidBoundaries(price: real, quantity: int)
    ensures NameValid(Some(Name(1))) && NameValid(Some(Name(255)))
    ensures !NameValid(Some(Name(0))) && !NameValid(Some(Name(256))) && !NameValid(None)
    ensures NameValid(Some(AstralName(127))) && !NameValid(Some(AstralName(128)))
    ensures PriceValid(Some(0.0)) && !PriceValid(None)
    ensures PriceValid(Some(price)) <==> price >= 0.0
    ensures QuantityValid(Some(0)) && !QuantityValid(None)
    ensures QuantityValid(Some(quantity)) <==> quantity >= 0
  {
  }
}
