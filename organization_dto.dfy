/**
 * The validation rules of the organization creation body, as the
 * class-validator decorators on its three properties state them, and how
 * the slug rule relates to the slug generator.
 */
module OrganizationDto {
  import opened JsValues
  import opened Slugs

  datatype Property = Name | Slug | Description

  datatype Constraint = IsNotEmpty | IsString | MinLength | Matches

  /** The body after whitelisting: only the declared properties remain. */
  datatype CreateOrganizationDto = CreateOrganizationDto(name: Value, slug: Value, description: Value)

  /** `/^[a-z0-9-]+$/`: one character of the class. */
  predicate IsPatternChar(c: char)
  {
    'a' <= c <= 'z' || '0' <= c <= '9' || c == '-'
  }

  /** `/^[a-z0-9-]+$/.test(s)` */
  predicate MatchesSlugPattern(s: string)
  {
    |s| > 0 && forall i :: 0 <= i < |s| ==> IsPatternChar(s[i])
  }

  /** `@IsNotEmpty()`: anything but `''`, `null` and `undefined`. */
  predicate NotEmpty(v: Value)
  {
    v != Str("") && !Nullish(v)
  }

  /** The failed constraints of the name: `@IsNotEmpty() @IsString() @MinLength(3)`. */
  function NameFailures(v: Value): set<Constraint>
  {
    (if NotEmpty(v) then {} else {IsNotEmpty})
    + (if v.Str? then {} else {IsString})
    + (if v.Str? && |v.s| >= 3 then {} else {MinLength})
  }

  /** The failed constraints of the slug: `@IsOptional() @IsString() @Matches(...)`. */
  function SlugFailures(v: Value): set<Constraint>
  {
    if Nullish(v) then {}
    else
      (if v.Str? then {} else {IsString})
      + (if v.Str? && MatchesSlugPattern(v.s) then {} else {Matches})
  }

  /** The failed constraints of the description: `@IsOptional() @IsString()`. */
  function DescriptionFailures(v: Value): set<Constraint>
  {
    if Nullish(v) then {} else if v.Str? then {} else {IsString}
  }

  /** Every (property, constraint) pair the body violates; the body is
      accepted exactly when there are none. */
  function Violations(dto: CreateOrganizationDto): (errors: set<(Property, Constraint)>)
    ensures errors == {} <==>
      && dto.name.Str? && |dto.name.s| >= 3
      && (Nullish(dto.slug) || (dto.slug.Str? && MatchesSlugPattern(dto.slug.s)))
      && (Nullish(dto.description) || dto.description.Str?)
    ensures (Name, MinLength) in errors <==> !(dto.name.Str? && |dto.name.s| >= 3)
    ensures Nullish(dto.slug) ==> forall c :: (Slug, c) !in errors
    ensures Nullish(dto.description) ==> forall c :: (Description, c) !in errors
  {
    var name := NameFailures(dto.name);
    var slug := SlugFailures(dto.slug);
    var description := DescriptionFailures(dto.description);
    var errors := (set c | c in name :: (Name, c)) + (set c | c in slug :: (Slug, c))
      + (set c | c in description :: (Description, c));
    assert (Name, MinLength) in errors <==> MinLength in name;
    assert !(dto.name.Str? && |dto.name.s| >= 3) ==> (Name, MinLength) in errors;
    assert !(Nullish(dto.slug) || (dto.slug.Str? && MatchesSlugPattern(dto.slug.s))) ==> (Slug, Matches) in errors;
    assert !(Nullish(dto.description) || dto.description.Str?) ==> (Description, IsString) in errors;
    errors
  }

  /** A supplied slug with an upper-case letter, a space or an underscore is rejected. */
  lemma SlugRejects(slug: string, i: int)
    requires 0 <= i < |slug|
    requires IsUpper(slug[i]) || IsSpace(slug[i]) || slug[i] == '_'
    ensures !MatchesSlugPattern(slug)
    ensures forall name: Value, description: Value ::
      (Slug, Matches) in Violations(CreateOrganizationDto(name, Str(slug), description))
  {
  }

  /** The generator keeps underscores, the pattern does not allow them: a
      generated slug sent back as a supplied one is rejected exactly when the
      name had an underscore, or the generated slug is empty. */
  lemma GeneratedSlugAgainstPattern(name: string)
    ensures MatchesSlugPattern(GenerateSlug(name)) <==> GenerateSlug(name) != "" && '_' !in name
  {
    var slug := GenerateSlug(name);
    SlugUnderscore(name);
    SlugCharset(name);
    if slug != "" && '_' !in name {
      forall i | 0 <= i < |slug|
        ensures IsPatternChar(slug[i])
      {
        assert slug[i] in slug;
      }
    }
  }
}
