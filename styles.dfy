/** React Native style values, as far as the content regions inspect them. */
module Styles {

  /** A style property's value: a number, or anything else (a percentage
      string, a colour, ...), which the components only pass along. */
  datatype StyleValue = Number(n: real) | Other(text: string)

  /** A flattened style object: property name -> value. */
  type Style = map<string, StyleValue>

  /** One entry of a style list: a plain style object, or the animated
      style that carries the footer margin of a scrollable. */
  datatype StyleItem = Plain(props: Style) | FooterMarginAnimated

  /** A `style` prop: absent, a single style, or an array of styles
      (anything with a `length`). */
  datatype StyleProp = Absent | Single(item: StyleItem) | Items(items: seq<StyleItem>)
}
