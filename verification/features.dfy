/** The three narrative builders of ml/features/build_features.py:
    `create_overview`, `evaluate_listing` and `construct_high_level_overview`.

    A row is reduced to the fields the builders read. Text fields hold the text
    the f-string renders; `Option` marks the fields whose nullness the source
    tests. The float formatters `:.2f` and `:.1f` are parameters, since the model
    does not interpret floating-point rendering.
 */
module Features {
  import opened Wrappers
  import opened Text

  datatype ListingRow = ListingRow(
    propertyType: string,
    roomType: string,
    bathroomsText: string,
    neighbourhoodCleansed: string,
    description: Option<string>,
    neighborhoodOverview: Option<string>,
    price: Option<real>,
    bedrooms: Option<real>,
    beds: Option<real>,
    accommodates: Option<real>,
    rating: Option<real>,
    cleanliness: Option<real>,
    checkin: Option<real>,
    communication: Option<real>,
    location: Option<real>,
    value: Option<real>
  )

  /** `s` ends with `t`. */
  predicate EndsWith(s: string, t: string) {
    |s| >= |t| && s[|s| - |t|..] == t
  }

  /** `t` occurs in `s` starting at position k. */
  predicate OccursAt(s: string, k: nat, t: string) {
    k + |t| <= |s| && s[k..k + |t|] == t
  }

  // ---------------------------------------------------------------------------
  // create_overview
  // ---------------------------------------------------------------------------

  /** Python's `int(x)` on a float: truncation toward zero. */
  function Trunc(x: real): (n: int)
    ensures x >= 0.0 ==> 0 <= n && n as real <= x < n as real + 1.0
    ensures x < 0.0 ==> n <= 0 && n as real - 1.0 < x <= n as real
  {
    if x >= 0.0 then x.Floor else -((-x).Floor)
  }

  /** A count rendered as `int(v)` when present and the literal 'N/A' when null. */
  function CountText(v: Option<real>): (s: string)
    ensures s == "N/A" <==> v.None?
    ensures v.Some? ==> s == IntToString(Trunc(v.value))
  {
    match v
    case None => "N/A"
    case Some(x) =>
      var s := IntToString(Trunc(x));
      assert s[0] != 'N';
      s
  }

  /** The first template sentence without its opening word and closing stop:
      bedrooms, property type, neighbourhood. */
  function LocationClause(l: ListingRow): string {
    CountText(l.bedrooms) + "-bedroom " + l.propertyType + " is located in " + l.neighbourhoodCleansed
  }

  /** The second template sentence without its opening word and closing stop:
      room type, accommodates, beds, bathrooms. */
  function CapacityClause(l: ListingRow): string {
    l.roomType + " accommodates " + CountText(l.accommodates)
    + " guests with " + CountText(l.beds) + " bed(s) and " + l.bathroomsText
  }

  /** The two template sentences, with the fields in their fixed order. */
  function OverviewTemplate(l: ListingRow): string {
    ("This " + LocationClause(l) + ". ") + ("The " + CapacityClause(l) + ". ")
  }

  const PriceLead := "The price per night is $"
  const RatingLead := "The property has a review rating of "

  function PriceSentence(price: Option<real>, fmt2: real -> string): string {
    match price
    case None => ""
    case Some(p) => PriceLead + fmt2(p) + ". "
  }

  function RatingSentence(rating: Option<real>, fmt1: real -> string): string {
    match rating
    case None => ""
    case Some(r) => RatingLead + fmt1(r) + "/5"
  }

  /** create_overview: the template, then the price sentence when the price is
      present, then the rating sentence when the rating is present, stripped. */
  function CreateOverview(l: ListingRow, fmt2: real -> string, fmt1: real -> string): (r: string)
    ensures NoOuterSpace(r)
  {
    Strip(OverviewTemplate(l) + PriceSentence(l.price, fmt2) + RatingSentence(l.rating, fmt1))
  }

  /** The template opens with 'T' and ends with ". ". */
  lemma TemplateShape(l: ListingRow)
    ensures var t := OverviewTemplate(l);
            |t| >= 2 && t[0] == 'T' && t[|t| - 2] == '.' && t[|t| - 1] == ' '
  {
    var a := "This " + LocationClause(l) + ". ";
    var b := "The " + CapacityClause(l) + ". ";
    assert a[0] == 'T';
    assert b[|b| - 2] == '.' && b[|b| - 1] == ' ';
  }

  /** A present price sentence opens with the price lead and ends with ". ". */
  lemma PriceShape(price: Option<real>, fmt2: real -> string)
    ensures var p := PriceSentence(price, fmt2);
            price.None? ==> p == ""
    ensures var p := PriceSentence(price, fmt2);
            price.Some? ==> |p| >= |PriceLead| + 2 && p[..|PriceLead|] == PriceLead
                            && p[|p| - 2] == '.' && p[|p| - 1] == ' '
  {
  }

  /** A present rating sentence opens with the rating lead and ends with "/5". */
  lemma RatingShape(rating: Option<real>, fmt1: real -> string)
    ensures var q := RatingSentence(rating, fmt1);
            rating.None? ==> q == ""
    ensures var q := RatingSentence(rating, fmt1);
            rating.Some? ==> |q| >= |RatingLead| + 2 && q[..|RatingLead|] == RatingLead
                             && q[|q| - 2] == '/' && q[|q| - 1] == '5'
  {
  }

  /** Stripping a template-shaped text followed by optional sentences removes
      only the final space, and only when no sentence ends in '5'. */
  lemma {:induction false} StripSentences(t: string, p: string, q: string)
    requires |t| >= 2 && t[0] == 'T' && t[|t| - 2] == '.' && t[|t| - 1] == ' '
    requires p == "" || (|p| >= 2 && p[|p| - 2] == '.' && p[|p| - 1] == ' ')
    requires q == "" || (|q| >= 1 && q[|q| - 1] == '5')
    ensures |t + p + q| >= 2
    ensures Strip(t + p + q) == if q != "" then t + p + q else (t + p)[..|t + p| - 1]
  {
    var full := t + p + q;
    assert full[0] == t[0];
    if q != "" {
      assert full[|full| - 1] == q[|q| - 1];
      StripExact("", full, "");
      assert "" + full + "" == full;
    } else {
      assert full == t + p;
      if p != "" {
        assert full[|full| - 2] == p[|p| - 2];
        assert full[|full| - 1] == p[|p| - 1];
      } else {
        assert full == t;
      }
      var m := full[..|full| - 1];
      assert m[|m| - 1] == '.';
      assert m[0] == 'T';
      assert full == m + [full[|full| - 1]];
      assert "" + m + " " == m + " ";
      StripExact("", m, " ");
    }
  }

  /** Stripping only ever removes the single space after the last sentence, and
      only when there is no rating sentence. */
  lemma OverviewExact(l: ListingRow, fmt2: real -> string, fmt1: real -> string)
    ensures var full := OverviewTemplate(l) + PriceSentence(l.price, fmt2) + RatingSentence(l.rating, fmt1);
            |full| >= 2
            && CreateOverview(l, fmt2, fmt1) == if l.rating.Some? then full else full[..|full| - 1]
  {
    TemplateShape(l);
    PriceShape(l.price, fmt2);
    RatingShape(l.rating, fmt1);
    StripSentences(OverviewTemplate(l), PriceSentence(l.price, fmt2), RatingSentence(l.rating, fmt1));
  }

  /** The two template sentences always open the overview (the template's final
      space is the only character that may be stripped). */
  lemma OverviewStartsWithTemplate(l: ListingRow, fmt2: real -> string, fmt1: real -> string)
    ensures var t := OverviewTemplate(l);
            var r := CreateOverview(l, fmt2, fmt1);
            |t| >= 1 && |r| >= |t| - 1 && r[..|t| - 1] == t[..|t| - 1]
  {
    OverviewExact(l, fmt2, fmt1);
  }

  /** After a template of length |t|, the price lead is found iff a price
      sentence was inserted there: the rating lead differs from it at index 6. */
  lemma {:induction false} PriceLeadAfter(t: string, p: string, q: string, r: string)
    requires |t| >= 2
    requires p == "" || (|p| >= |PriceLead| + 2 && p[..|PriceLead|] == PriceLead)
    requires q == "" || (|q| >= |RatingLead| + 2 && q[..|RatingLead|] == RatingLead)
    requires r == if q != "" then t + p + q else (t + p)[..|t + p| - 1]
    ensures OccursAt(r, |t|, PriceLead) <==> p != ""
  {
    var k := |t|;
    var n := |PriceLead|;
    if p != "" {
      var tp := t + p;
      assert |tp| == k + |p| >= k + n + 2;
      assert tp[k..k + n] == p[..n];
      assert |r| >= |tp| - 1 && r[..|tp| - 1] == tp[..|tp| - 1];
      assert r[k..k + n] == r[..|tp| - 1][k..k + n];
      assert tp[k..k + n] == tp[..|tp| - 1][k..k + n];
    } else if q != "" {
      assert r == t + q;
      assert r[k + 6] == q[6] == RatingLead[6] == 'o';
      assert PriceLead[6] == 'i';
      assert r[k..k + n][6] != PriceLead[6];
    } else {
      assert |r| < k;
    }
  }

  /** The price sentence appears, right after the template, iff the price is present. */
  lemma OverviewPriceIff(l: ListingRow, fmt2: real -> string, fmt1: real -> string)
    ensures OccursAt(CreateOverview(l, fmt2, fmt1), |OverviewTemplate(l)|, PriceLead) <==> l.price.Some?
  {
    OverviewExact(l, fmt2, fmt1);
    TemplateShape(l);
    PriceShape(l.price, fmt2);
    RatingShape(l.rating, fmt1);
    PriceLeadAfter(OverviewTemplate(l), PriceSentence(l.price, fmt2), RatingSentence(l.rating, fmt1),
                   CreateOverview(l, fmt2, fmt1));
  }

  /** After the template and an optional price sentence, the text ends with "/5"
      iff a rating sentence closes it; otherwise it ends with the stop of the
      last sentence. */
  lemma {:induction false} RatingTailAfter(t: string, p: string, q: string, r: string)
    requires |t| >= 2 && t[|t| - 2] == '.' && t[|t| - 1] == ' '
    requires p == "" || (|p| >= 2 && p[|p| - 2] == '.' && p[|p| - 1] == ' ')
    requires q == "" || (|q| >= 2 && q[|q| - 2] == '/' && q[|q| - 1] == '5')
    requires r == if q != "" then t + p + q else (t + p)[..|t + p| - 1]
    ensures EndsWith(r, "/5") <==> q != ""
  {
    if q != "" {
      assert r == (t + p) + q;
      assert r[|r| - 2] == q[|q| - 2] && r[|r| - 1] == q[|q| - 1];
      assert r[|r| - 2..] == "/5";
    } else {
      var tp := t + p;
      assert |r| == |tp| - 1 && r[|r| - 1] == tp[|tp| - 2];
      if p != "" {
        assert tp[|tp| - 2] == p[|p| - 2];
      } else {
        assert tp == t;
      }
      assert r[|r| - 1] == '.';
      assert !EndsWith(r, "/5");
    }
  }

  /** The overview ends with the rating sentence's "/5" iff the rating is present. */
  lemma OverviewRatingIff(l: ListingRow, fmt2: real -> string, fmt1: real -> string)
    ensures EndsWith(CreateOverview(l, fmt2, fmt1), "/5") <==> l.rating.Some?
  {
    OverviewExact(l, fmt2, fmt1);
    TemplateShape(l);
    PriceShape(l.price, fmt2);
    RatingShape(l.rating, fmt1);
    RatingTailAfter(OverviewTemplate(l), PriceSentence(l.price, fmt2), RatingSentence(l.rating, fmt1),
                    CreateOverview(l, fmt2, fmt1));
  }

  /** With both present, the price sentence comes first and the rating sentence
      closes the overview. */
  lemma OverviewPriceBeforeRating(l: ListingRow, fmt2: real -> string, fmt1: real -> string)
    requires l.price.Some? && l.rating.Some?
    ensures var r := CreateOverview(l, fmt2, fmt1);
            var k := |OverviewTemplate(l)|;
            var p := PriceLead + fmt2(l.price.value) + ". ";
            OccursAt(r, k, p) && r[k + |p|..] == RatingLead + fmt1(l.rating.value) + "/5"
  {
    OverviewExact(l, fmt2, fmt1);
  }

  // ---------------------------------------------------------------------------
  // evaluate_listing
  // ---------------------------------------------------------------------------

  /** `score >= t` in pandas: a null (NaN) score compares false. */
  predicate AtLeast(score: Option<real>, t: real) {
    score.Some? && score.value >= t
  }

  /** The if / elif / else of one review category. */
  function Bullet(score: Option<real>, high: string, mid: string, low: string): string {
    if AtLeast(score, 4.5) then high else if AtLeast(score, 3.5) then mid else low
  }

  const CleanlinessSentences: seq<string> := [
    "\U{2022} The property is consistently rated highly for cleanliness.",
    "\U{2022} The property is generally clean but could use some improvement.",
    "\U{2022} Cleanliness is often highlighted as a concern by guests."
  ]

  const CheckinSentences: seq<string> := [
    "\U{2022} The check-in process is rated as smooth and easy by most guests.",
    "\U{2022} The check-in process is generally okay, but there might be occasional issues.",
    "\U{2022} Guests frequently report issues with the check-in process."
  ]

  const CommunicationSentences: seq<string> := [
    "\U{2022} The host is highly responsive and easy to communicate with.",
    "\U{2022} Communication with the host is generally fine, with some areas for improvement.",
    "\U{2022} Guests have often faced difficulties in communicating with the host."
  ]

  const LocationSentences: seq<string> := [
    "\U{2022} The location is highly rated by guests, with many finding it convenient.",
    "\U{2022} The location is generally good but may not be ideal for everyone.",
    "\U{2022} The location might not be convenient or desirable for many guests."
  ]

  const ValueSentences: seq<string> := [
    "\U{2022} Guests believe the property offers excellent value for money.",
    "\U{2022} The property offers reasonable value, though some guests may feel it's a bit pricey.",
    "\U{2022} Guests feel the property does not offer good value for the price."
  ]

  const MeetsClosing := "Overall, the reviews suggest that the property consistently meets or exceeds expectations."
  const ShortfallClosing := "There are some areas where guest experiences may not fully align with the description, particularly in the aspects highlighted above."

  const NoDescription := "No detailed description available."

  function OutlineHeader(l: ListingRow): string {
    "Property Description: " + l.description.GetOr(NoDescription) + " Review Overview:"
  }

  /** All six scores, the overall rating included, reach 4.5. */
  predicate AllTop(l: ListingRow) {
    && AtLeast(l.rating, 4.5) && AtLeast(l.cleanliness, 4.5) && AtLeast(l.checkin, 4.5)
    && AtLeast(l.communication, 4.5) && AtLeast(l.location, 4.5) && AtLeast(l.value, 4.5)
  }

  /** The five category sentences, in the order evaluate_listing appends them. */
  function Bullets(l: ListingRow): string {
    Bullet(l.cleanliness, CleanlinessSentences[0], CleanlinessSentences[1], CleanlinessSentences[2])
    + Bullet(l.checkin, CheckinSentences[0], CheckinSentences[1], CheckinSentences[2])
    + Bullet(l.communication, CommunicationSentences[0], CommunicationSentences[1], CommunicationSentences[2])
    + Bullet(l.location, LocationSentences[0], LocationSentences[1], LocationSentences[2])
    + Bullet(l.value, ValueSentences[0], ValueSentences[1], ValueSentences[2])
  }

  /** The category sentences, then the closing. */
  function OutlineBody(l: ListingRow): string {
    Bullets(l) + Closing(l)
  }

  /** The closing sentence: the top one iff all six scores reach 4.5. */
  function Closing(l: ListingRow): string {
    if AllTop(l) then MeetsClosing else ShortfallClosing
  }

  /** evaluate_listing: the header, then the body. The "meets or exceeds
      expectations" closing ends it iff all six scores reach 4.5; otherwise the
      "some areas" closing does. */
  function EvaluateListing(l: ListingRow): (r: string)
    ensures EndsWith(r, MeetsClosing) <==> AllTop(l)
    ensures EndsWith(r, ShortfallClosing) <==> !AllTop(l)
  {
    var x := OutlineHeader(l) + Bullets(l);
    ClosingDecides(x, AllTop(l));
    x + Closing(l)
  }

  /** The tier a score falls in: 0 (at least 4.5), 1 (at least 3.5) or 2 (below,
      or null). */
  function Tier(score: Option<real>): (k: nat)
    ensures k < 3
    ensures k == 0 <==> AtLeast(score, 4.5)
    ensures k == 2 <==> !AtLeast(score, 3.5)
  {
    if AtLeast(score, 4.5) then 0 else if AtLeast(score, 3.5) then 1 else 2
  }

  /** A higher score never lands in a worse tier; null is the worst tier. */
  lemma TierMonotone(a: Option<real>, b: Option<real>)
    requires a.None? || (b.Some? && a.value <= b.value)
    ensures Tier(b) <= Tier(a)
  {
  }

  /** One category's if / elif / else picks the sentence of the score's tier. */
  lemma BulletIsTier(score: Option<real>, sentences: seq<string>)
    requires |sentences| == 3
    ensures Bullet(score, sentences[0], sentences[1], sentences[2]) == sentences[Tier(score)]
  {
  }

  /** For each category in order, the sentence of its tier. */
  lemma BulletsByTier(l: ListingRow)
    ensures Bullets(l) ==
              CleanlinessSentences[Tier(l.cleanliness)]
              + CheckinSentences[Tier(l.checkin)]
              + CommunicationSentences[Tier(l.communication)]
              + LocationSentences[Tier(l.location)]
              + ValueSentences[Tier(l.value)]
  {
    var cs, ks, ms, ls, vs := CleanlinessSentences, CheckinSentences, CommunicationSentences,
                              LocationSentences, ValueSentences;
    BulletIsTier(l.cleanliness, cs);
    BulletIsTier(l.checkin, ks);
    BulletIsTier(l.communication, ms);
    BulletIsTier(l.location, ls);
    BulletIsTier(l.value, vs);
  }

  /** The outline is the header, then for each category in order the sentence of
      its tier, then the closing: exactly one of the three sentences per category. */
  lemma OutlineByTier(l: ListingRow)
    ensures EvaluateListing(l) == OutlineHeader(l) + OutlineBody(l)
    ensures OutlineBody(l) ==
              CleanlinessSentences[Tier(l.cleanliness)]
              + CheckinSentences[Tier(l.checkin)]
              + CommunicationSentences[Tier(l.communication)]
              + LocationSentences[Tier(l.location)]
              + ValueSentences[Tier(l.value)]
              + Closing(l)
  {
    BulletsByTier(l);
    var h, bs, c := OutlineHeader(l), Bullets(l), Closing(l);
    assert (h + bs) + c == h + (bs + c);
  }

  /** The outline opens with the description, or the stock text when it is null. */
  lemma OutlineStartsWithDescription(l: ListingRow)
    ensures var d := if l.description.Some? then l.description.value else NoDescription;
            var h := "Property Description: " + d + " Review Overview:";
            |EvaluateListing(l)| >= |h| && EvaluateListing(l)[..|h|] == h
  {
    var h := OutlineHeader(l);
    assert EvaluateListing(l)[..|h|] == h;
  }

  /** Of two suffixes that differ at their second-to-last character, a text
      ending with one never ends with the other. */
  lemma {:induction false} SuffixDecides(x: string, a: string, b: string)
    requires |a| >= 2 && |b| >= 2 && a[|a| - 2] != b[|b| - 2]
    ensures EndsWith(x + a, a) && !EndsWith(x + a, b)
  {
    var r := x + a;
    assert r[|r| - |a|..] == a;
    assert r[|r| - 2] == a[|a| - 2];
    if |r| >= |b| {
      assert r[|r| - |b|..][|b| - 2] == r[|r| - 2];
    }
  }

  /** Whatever precedes it, the closing chosen for `top` is the one the text
      ends with, and the other closing is not. */
  lemma ClosingDecides(x: string, top: bool)
    ensures var r := x + (if top then MeetsClosing else ShortfallClosing);
            && (EndsWith(r, MeetsClosing) <==> top)
            && (EndsWith(r, ShortfallClosing) <==> !top)
  {
    var m, f := MeetsClosing, ShortfallClosing;
    assert m[|m| - 2] == 's';
    assert f[|f| - 2] == 'e';
    if top {
      SuffixDecides(x, m, f);
    } else {
      SuffixDecides(x, f, m);
    }
  }

  /** The top closing implies every category got its top-tier sentence. */
  lemma MeetsClosingImpliesTopTier(l: ListingRow)
    requires EndsWith(EvaluateListing(l), MeetsClosing)
    ensures OutlineBody(l) ==
              CleanlinessSentences[0] + CheckinSentences[0] + CommunicationSentences[0]
              + LocationSentences[0] + ValueSentences[0] + MeetsClosing
  {
    OutlineByTier(l);
    assert Tier(l.cleanliness) == 0 && Tier(l.checkin) == 0 && Tier(l.communication) == 0;
    assert Tier(l.location) == 0 && Tier(l.value) == 0;
  }

  // ---------------------------------------------------------------------------
  // construct_high_level_overview
  // ---------------------------------------------------------------------------

  const NeighborhoodLead := " The neighborhood is described as: "

  /** The description sentence: a space and the description, when it is a string. */
  function DescriptionPart(l: ListingRow): (s: string)
    ensures l.description.None? <==> s == ""
  {
    if l.description.Some? then " " + l.description.value else ""
  }

  /** The neighborhood sentence, when the overview is a string. */
  function NeighborhoodPart(l: ListingRow): (s: string)
    ensures l.neighborhoodOverview.None? <==> s == ""
  {
    if l.neighborhoodOverview.Some? then NeighborhoodLead + l.neighborhoodOverview.value else ""
  }

  /** construct_high_level_overview: the property type, then the description if
      it is a string, then the neighborhood sentence if that is a string. */
  function HighLevelOverview(l: ListingRow): (r: string)
    ensures |r| == 11 + |l.propertyType|
                   + (if l.description.Some? then 1 + |l.description.value| else 0)
                   + (if l.neighborhoodOverview.Some? then |NeighborhoodLead| + |l.neighborhoodOverview.value| else 0)
  {
    "This is a " + l.propertyType + "." + DescriptionPart(l) + NeighborhoodPart(l)
  }

  /** The pieces appear in order, each only when its field is present. */
  lemma HighLevelParts(l: ListingRow)
    ensures var r := HighLevelOverview(l);
            var head := "This is a " + l.propertyType + ".";
            && r[..|head|] == head
            && (l.description.Some? ==> OccursAt(r, |head|, " " + l.description.value))
            && (l.neighborhoodOverview.Some? ==> EndsWith(r, NeighborhoodLead + l.neighborhoodOverview.value))
            && (l.description.None? && l.neighborhoodOverview.None? ==> r == head)
  {
    var head := "This is a " + l.propertyType + ".";
    var dp := DescriptionPart(l);
    var np := NeighborhoodPart(l);
    var r := HighLevelOverview(l);
    assert r == head + dp + np;
    assert r[..|head|] == head;
    assert r[|head|..|head| + |dp|] == dp;
    assert r[|r| - |np|..] == np;
    assert dp == "" && np == "" ==> r == head;
  }
}
