/** The before-plugin on billing-address assignment: when the address carries
    a PostNL house number, the street is rewritten as one line made of the
    first street line, the house number and the house number addition. */
module PostcodecheckBilling {
  import opened PhpArrays

  /** The PostNL extension attributes of an address; null when absent. */
  datatype AddressExtension = AddressExtension(
    tigHousenumber: Option<string>,
    tigHousenumberAddition: Option<string>)

  /** The quote address the plugin rewrites in place. */
  class Address {
    var street: seq<string>
    var extensionAttributes: Option<AddressExtension>

    constructor (street: seq<string>, extensionAttributes: Option<AddressExtension>)
      ensures this.street == street && this.extensionAttributes == extensionAttributes
    {
      this.street := street;
      this.extensionAttributes := extensionAttributes;
    }
  }

  /** PHP truthiness of a string or null: null, "" and "0" are falsy. */
  predicate Truthy(v: Option<string>): (r: bool)
    ensures r ==> v.Some? && |v.value| > 0
    ensures v == Some("0") ==> !r
  {
    v.Some? && v.value != "" && v.value != "0"
  }

  /** A string or null as PHP's `.` concatenates it: null becomes "". */
  function AsString(v: Option<string>): string
  {
    if v.Some? then v.value else ""
  }

  /** `$street[0]`; a missing first line reads as null, that is "". */
  function FirstLine(street: seq<string>): string
  {
    if |street| > 0 then street[0] else ""
  }

  /** The street lines after beforeAssign: unchanged without extension
      attributes or without a (truthy) house number, otherwise the single
      line "first line, space, house number, space, addition". */
  function AssignedStreet(street: seq<string>, ext: Option<AddressExtension>): (r: seq<string>)
    ensures ext.None? ==> r == street
    ensures ext.Some? && !Truthy(ext.value.tigHousenumber) ==> r == street
    ensures ext.Some? && Truthy(ext.value.tigHousenumber) ==>
      var line, number, addition := FirstLine(street), ext.value.tigHousenumber.value, AsString(ext.value.tigHousenumberAddition);
      && |r| == 1
      && |r[0]| == |line| + |number| + |addition| + 2
      && r[0][..|line|] == line
      && r[0][|line|] == ' '
      && r[0][|line| + 1..|line| + 1 + |number|] == number
      && r[0][|line| + 1 + |number|] == ' '
      && r[0][|line| + 2 + |number|..] == addition
  {
    match ext
    case None => street
    case Some(attributes) =>
      if !Truthy(attributes.tigHousenumber) then street
      else [FirstLine(street) + " " + attributes.tigHousenumber.value + " " + AsString(attributes.tigHousenumberAddition)]
  }

  /** Without an addition the rewritten line ends in a space. */
  lemma TrailingSpaceWithoutAddition(street: seq<string>, ext: AddressExtension)
    requires Truthy(ext.tigHousenumber) && AsString(ext.tigHousenumberAddition) == ""
    ensures
      var r := AssignedStreet(street, Some(ext));
      |r| == 1 && |r[0]| > 0 && r[0][|r[0]| - 1] == ' '
  {
  }

  /** Applying the rewrite to its own result appends the house number and
      addition a second time: the plugin is not idempotent. */
  lemma RewriteNotIdempotent(street: seq<string>, ext: AddressExtension)
    requires Truthy(ext.tigHousenumber)
    ensures
      var tail := " " + ext.tigHousenumber.value + " " + AsString(ext.tigHousenumberAddition);
      AssignedStreet(AssignedStreet(street, Some(ext)), Some(ext)) == [FirstLine(street) + tail + tail]
    ensures AssignedStreet(AssignedStreet(street, Some(ext)), Some(ext)) != AssignedStreet(street, Some(ext))
  {
    var number, addition := ext.tigHousenumber.value, AsString(ext.tigHousenumberAddition);
    var tail := " " + number + " " + addition;
    var once := FirstLine(street) + " " + number + " " + addition;
    assert once == FirstLine(street) + tail;
    assert AssignedStreet(street, Some(ext)) == [once];
    var twice := once + " " + number + " " + addition;
    assert twice == once + tail;
    assert AssignedStreet([once], Some(ext)) == [twice];
    assert |twice| > |once|;
  }

  /** The rewrite of a one-line street "Main" with house number 12 and
      addition A, applied twice. */
  lemma RewriteTwiceExample()
    ensures
      var ext := Some(AddressExtension(Some("12"), Some("A")));
      AssignedStreet(AssignedStreet(["Main"], ext), ext) == ["Main 12 A 12 A"]
  {
    var ext := Some(AddressExtension(Some("12"), Some("A")));
    assert "12" != "0" && "12" != "";
    assert "Main" + " " + "12" + " " + "A" == "Main 12 A";
    assert "Main 12 A" + " " + "12" + " " + "A" == "Main 12 A 12 A";
    assert AssignedStreet(["Main"], ext) == ["Main 12 A"];
  }

  /** beforeAssign($subject, $cartId, $address, $shipping): rewrites the
      street of the address in place and hands the arguments on. */
  method BeforeAssign(cartId: int, address: Address, shipping: bool)
    returns (outCartId: int, outAddress: Address, outShipping: bool)
    modifies address`street
    ensures outCartId == cartId && outAddress == address && outShipping == shipping
    ensures address.street == AssignedStreet(old(address.street), address.extensionAttributes)
  {
    var attributes := address.extensionAttributes;
    if attributes.None? {
      return cartId, address, shipping;
    }
    if !Truthy(attributes.value.tigHousenumber) {
      return cartId, address, shipping;
    }
    address.street := [FirstLine(address.street) + " " + attributes.value.tigHousenumber.value + " "
                       + AsString(attributes.value.tigHousenumberAddition)];
    return cartId, address, shipping;
  }
}
