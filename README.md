# Markup nodes of a static site generator

This project models the node hierarchy of a static site generator. It is a small tree of markup nodes that renders to a markup string. There are three node classes:

- `HTMLNode` is the bare base class. Its `to_html` always raises `NotImplementedError`.
- `LeafNode` holds an optional tag, a value and optional props. It renders as bare text, or as `<tag props>value</tag>`.
- `ParentNode` holds a tag, an ordered list of children and optional props. It renders its children depth-first, left to right, between its opening and closing tags.

All three share `props_to_html`. It turns the props mapping into the attribute text of an opening tag.

The model has three files:

- `wrappers.dfy` holds `Option` (Python's `None`) and `Result` (a value, or the exception raised).
- `htmlnode.dfy` (module `HtmlNode`) holds the node datatype and `props_to_html`. That operation is a method with a loop, proved equal to the recursive `PropsString`. It also holds `Render`, which models the three `to_html` methods, and `RenderChildren`, which models `"".join(child.to_html() ...)`.
- `render_properties.dfy` (module `RenderProperties`) holds the lemmas. They give the exact output strings, the order of the guards, and the error a tree raises. That error is characterised on its own terms: walk the tree in document order and take the first node that is faulty by itself.

Each node is a value, built once, and `Render` is a function. So rendering never changes a node, and rendering the same tree twice gives the same result.

Rendering raises Python exceptions. They are modelled as the `Error` datatype:

- `NotImplementedError` for a bare node.
- `ValueError(m)` with the source's own messages, for a leaf without a value, a parent without a tag, and a parent with an empty children list.
- `TypeError` for a parent whose children list is `None`.

About that last case: `ParentNode.to_html` calls `len(self.children)` before it tests `self.children is None`, so a `None` list fails inside `len()` and the `is None` test is never reached. The model follows the code. It does not treat `None` children like an empty list.

A leaf with a tag but no value fails with the missing-value error. The code checks the value before it looks at the tag, and it has no exception for any tag name (an image element, say).

## Model

| member | source | states |
|---|---|---|
| `HtmlNode.FieldsOf` | src/htmlnode.py:32-48 | A `LeafNode` instance holds `children = None` and a `ParentNode` instance holds `value = None`; tag and props are the constructor's arguments. |
| `RenderProperties.SubclassesInitialiseThroughBase` | src/htmlnode.py:32-48 | `LeafNode(t, v, p)` holds the same attributes as `HTMLNode(t, v, None, p)`, and `ParentNode(t, c, p)` the same as `HTMLNode(t, None, c, p)`: the two `super().__init__` calls. |
| `HtmlNode.AttrsOf` | src/htmlnode.py:21-24 | Built from `Attr`, one entry's ` k="v"` (line 23). The attribute text is empty exactly when there are no entries; otherwise it starts with a space and ends with a closing quote (no trailing space). |
| `HtmlNode.PropsString` | src/htmlnode.py:19-25 | `props_to_html` gives `''` if and only if props is `None` or empty. |
| `HtmlNode.PropsToHtml` | src/htmlnode.py:19-25 | The accumulating loop returns exactly `PropsString` of the node's props. |
| `RenderProperties.AttrsAppend` | src/htmlnode.py:22-23 | Entries render in insertion order: the text for `a + b` is the text for `a` followed by the text for `b`. |
| `RenderProperties.PropsStringFirstEntry` | src/htmlnode.py:21-24 | The first entry renders as `' k="v"'`, followed directly by the rest; there is no separator and no escaping. |
| `RenderProperties.PropsStringSingle` | src/htmlnode.py:23 | A one-entry mapping renders to exactly `' k="v"'`. |
| `RenderProperties.PropsStringLinkExample` | src/test_htmlnode.py:11-13 | `{href, target}` renders to `' href="https://www.google.com" target="_blank"'`. |
| `HtmlNode.Render` | src/htmlnode.py:16-60 | The three `to_html` methods dispatched on the node's class, with its pieces `OpenTag` (lines 56 and 40) and `CloseTag` (line 58). It has no `ensures` of its own. Its contract is stated by `BaseNeverRenders`, `LeafRendering`, `ParentGuards`, `ParentRendersChildrenInOrder`, `ParentFailsWithFirstFailingChild`, `RenderErrorIsFirstInPreorder` and `RenderSucceedsIffNoFaultyNode` below. |
| `HtmlNode.RenderChildren` | src/htmlnode.py:57 | The `"".join` over the children's `to_html()`. It has no `ensures` of its own. Its contract is stated by `RenderChildrenJoins`, `RenderChildrenFirstFailure` and `ChildrenErrorIsFirstInPreorder` below. |
| `RenderProperties.BaseNeverRenders` | src/htmlnode.py:16-17 | A bare node fails with `NotImplementedError` whatever its fields. |
| `RenderProperties.LeafRendering` | src/htmlnode.py:35-40 | A leaf with no value fails with the missing-value error, whatever its tag and props. With no tag it renders to exactly its value, ignoring props. Otherwise it renders to `"<" + t + props + ">" + v + "</" + t + ">"`. |
| `RenderProperties.LeafWithoutProps` | src/htmlnode.py:40 | A tagged leaf without props renders as `<t>v</t>`. |
| `RenderProperties.ParentGuards` | src/htmlnode.py:50-54 | A parent checks its tag first, then `len` of its children (a `TypeError` for `None`), then emptiness. Each check decides the error before any child is looked at. |
| `RenderProperties.RenderChildrenJoins` | src/htmlnode.py:57 | When every child renders, the join is the children's outputs concatenated in list order. |
| `RenderProperties.RenderChildrenFirstFailure` | src/htmlnode.py:57 | When child k is the first to fail, the join fails with child k's error. |
| `RenderProperties.ParentRendersChildrenInOrder` | src/htmlnode.py:56-60 | A tagged parent whose children all render gives `"<" + t + props + ">" + out1 + ... + outn + "</" + t + ">"`. |
| `RenderProperties.ParentFailsWithFirstFailingChild` | src/htmlnode.py:56-60 | A tagged parent with children fails with the error of its first failing child in list order. |
| `RenderProperties.SpanAroundBold` | src/htmlnode.py:46-60 | `span > b("x")` renders to `<span><b>x</b></span>`. |
| `RenderProperties.NestingExample` | src/htmlnode.py:46-60 | `div > span > b("x")` renders to `<div><span><b>x</b></span></div>`: tags nest in document order. |
| `RenderProperties.RenderErrorIsFirstInPreorder` | src/htmlnode.py:35-60 | The error a tree raises is the local error of the first faulty node in document order. Rendering succeeds exactly when there is no faulty node. |
| `RenderProperties.ChildrenErrorIsFirstInPreorder` | src/htmlnode.py:57 | The same holds for a children list: the join's error is the first local error among the nodes under the children, in document order. |
| `RenderProperties.RenderSucceedsIffNoFaultyNode` | src/htmlnode.py:16-60 | A tree renders if and only if no node in it is a bare node, a leaf without a value, or a parent without a tag or with a `None` or empty children list. |
| `RenderProperties.BaseChildSpoilsParent` | src/htmlnode.py:16-17 | A parent with a bare node anywhere among its children fails to render. |

## Left out

- The `__repr__` methods print Python's own formatting of `None`, lists and dicts. They are not modelled.
- `TextNode` and any conversion from text spans to leaves. `textnode.py` is not part of this model.
- Python's dynamic typing. Tags, values, prop keys and prop values are modelled as strings, so the `str()` conversion an f-string applies to other objects is not modelled. Children are modelled as nodes, so the `AttributeError` an arbitrary object in a children list would raise is not modelled.
- A props dict has distinct keys. The model keeps the entries as a sequence of pairs in insertion order and does not require distinct keys, because rendering does not depend on it.
- Deep trees and the interpreter's recursion limit. A datatype value is finite and acyclic, and the model has no depth bound, as the code has none.
- The test scaffolding (`unittest.main()`).
